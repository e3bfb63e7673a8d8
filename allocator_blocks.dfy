/// How the block structure of Allocator/mm.c changes: splitting a block in
/// two (set_allocated), rewriting a block's allocated bit (set_allocated,
/// mm_free), merging two neighbours (coalesce), and adding or dropping a whole
/// page (extend, mm_free).  Each lemma shows that the boundary-tag invariant
/// `Core` holds of the new memory and the new block map, given the words the
/// source writes.
module AllocatorBlocks {
  import opened AllocatorCodec
  import opened AllocatorHeap

  // ---------------------------------------------------------------------------
  // Reading tags back
  // ---------------------------------------------------------------------------

  /** A word holding a block's tag decodes to the block's size. */
  lemma TagSize(w: int, blk: Block)
    requires w == Tag(blk) && blk.size % 16 == 0
    ensures GetSize(w) == blk.size
  {
    PackUnpack(blk.size, if blk.isAllocated then 1 else 0);
  }

  /** A word holding a block's tag decodes to the block's allocated bit. */
  lemma TagAlloc(w: int, blk: Block)
    requires w == Tag(blk) && blk.size % 16 == 0
    ensures GetAlloc(w) == (if blk.isAllocated then 1 else 0)
  {
    PackUnpack(blk.size, if blk.isAllocated then 1 else 0);
  }

  /** PREV_BLKP finds `y` when the word before `bp`'s header is y's footer and y ends at bp. */
  lemma PrevVia(m: map<int, int>, blocks: map<int, Block>, bp: int, y: int)
    requires y in blocks && y + blocks[y].size == bp && blocks[y].size % 16 == 0
    requires Get(m, bp - 16) == Tag(blocks[y])
    ensures PrevBlkp(m, bp) == y
  {
    TagSize(Get(m, bp - 16), blocks[y]);
  }

  // ---------------------------------------------------------------------------
  // Splitting
  // ---------------------------------------------------------------------------

  /** The block map after block `b` is cut into `b1` at b and `b2` at b + b1.size. */
  function SplitMap(blocks: map<int, Block>, b: int, b1: Block, b2: Block): map<int, Block>
  {
    blocks[b := b1][b + b1.size := b2]
  }

  /** The two halves of a split: together they cover `b`, in b's page, each well shaped. */
  ghost predicate SplitsInto(blocks: map<int, Block>, b: int, b1: Block, b2: Block)
  {
    && b in blocks
    && b1.page == blocks[b].page && b2.page == blocks[b].page
    && b1.size % 16 == 0 && b1.size >= 32 && b2.size >= 32
    && b1.size + b2.size == blocks[b].size
  }

  /** The split point is not a block of the old map. */
  lemma SplitPointFresh(blocks: map<int, Block>, b: int, b1: Block, b2: Block)
    requires Disjoint(blocks) && SplitsInto(blocks, b, b1, b2)
    ensures b + b1.size !in blocks
  {
    forall q | q in blocks && b < q
      ensures b + blocks[b].size <= q
    {
      assert Apart(blocks, b, q);
    }
  }

  /** Splitting keeps the blocks in their pages, well shaped and disjoint. */
  lemma SplitBlocks(pages: map<int, int>, blocks: map<int, Block>, b: int, b1: Block, b2: Block)
    requires BlocksOk(pages, blocks) && SplitsInto(blocks, b, b1, b2)
    ensures BlocksOk(pages, SplitMap(blocks, b, b1, b2))
  {
    SplitPointFresh(blocks, b, b1, b2);
    SplitDisjoint(blocks, b, b1, b2);
    assert InPage(pages, b, blocks[b]) && Shaped(b, blocks[b]);
    SplitPlaced(pages, blocks, b, b1, b2);
  }

  /** The two halves overlap neither each other nor any other block. */
  lemma SplitDisjoint(blocks: map<int, Block>, b: int, b1: Block, b2: Block)
    requires Disjoint(blocks) && SplitsInto(blocks, b, b1, b2) && b + b1.size !in blocks
    ensures Disjoint(SplitMap(blocks, b, b1, b2))
  {
    var nb := SplitMap(blocks, b, b1, b2);
    var c := b + b1.size;
    forall p, q | p in nb && q in nb && p < q
      ensures p + nb[p].size <= q
    {
      if p != b && p != c && q != b && q != c {
        assert Apart(blocks, p, q);
      } else if p != b && p != c {
        assert Apart(blocks, p, b) && Apart(blocks, b, p);
      } else if q != b && q != c {
        assert Apart(blocks, b, q);
      }
    }
  }

  /** Both halves lie in b's page and are well shaped; the first blocks of the pages stay. */
  lemma SplitPlaced(pages: map<int, int>, blocks: map<int, Block>, b: int, b1: Block, b2: Block)
    requires Placed(pages, blocks) && (forall bp :: bp in blocks ==> Shaped(bp, blocks[bp]))
    requires FirstBlocks(pages, blocks)
    requires SplitsInto(blocks, b, b1, b2) && b + b1.size !in blocks
    requires InPage(pages, b, blocks[b]) && Shaped(b, blocks[b])
    ensures Placed(pages, SplitMap(blocks, b, b1, b2))
    ensures forall bp :: bp in SplitMap(blocks, b, b1, b2) ==> Shaped(bp, SplitMap(blocks, b, b1, b2)[bp])
    ensures FirstBlocks(pages, SplitMap(blocks, b, b1, b2))
  {
    SplitInPage(pages, blocks, b, b1, b2);
    SplitFirst(pages, blocks, b, b1, b2);
  }

  /** Both halves lie in b's page and are well shaped. */
  lemma SplitInPage(pages: map<int, int>, blocks: map<int, Block>, b: int, b1: Block, b2: Block)
    requires Placed(pages, blocks) && (forall bp :: bp in blocks ==> Shaped(bp, blocks[bp]))
    requires SplitsInto(blocks, b, b1, b2)
    requires InPage(pages, b, blocks[b]) && Shaped(b, blocks[b])
    ensures Placed(pages, SplitMap(blocks, b, b1, b2))
    ensures forall bp :: bp in SplitMap(blocks, b, b1, b2) ==> Shaped(bp, SplitMap(blocks, b, b1, b2)[bp])
  {
    var nb := SplitMap(blocks, b, b1, b2);
    var c := b + b1.size;
    forall bp | bp in nb
      ensures InPage(pages, bp, nb[bp]) && Shaped(bp, nb[bp])
    {
      if bp != b && bp != c {
        assert InPage(pages, bp, blocks[bp]) && Shaped(bp, blocks[bp]);
      }
    }
  }

  /** The first blocks of the pages stay where they are. */
  lemma SplitFirst(pages: map<int, int>, blocks: map<int, Block>, b: int, b1: Block, b2: Block)
    requires FirstBlocks(pages, blocks) && SplitsInto(blocks, b, b1, b2) && b + b1.size !in blocks
    ensures FirstBlocks(pages, SplitMap(blocks, b, b1, b2))
  {
    var nb := SplitMap(blocks, b, b1, b2);
    forall pg | pg in pages
      ensures pg + 32 in nb && nb[pg + 32].page == pg
    {
      assert pg + 32 in blocks;
    }
  }

  /** Splitting keeps every block followed by a block or its page's end. */
  lemma SplitNext(pages: map<int, int>, blocks: map<int, Block>, b: int, b1: Block, b2: Block)
    requires Disjoint(blocks) && NextOk(pages, blocks) && SplitsInto(blocks, b, b1, b2)
    ensures NextOk(pages, SplitMap(blocks, b, b1, b2))
  {
    var nb := SplitMap(blocks, b, b1, b2);
    SplitPointFresh(blocks, b, b1, b2);
    forall bp | bp in nb
      ensures bp + nb[bp].size in nb || bp + nb[bp].size == PageEnd(pages, nb[bp])
    {
      if bp != b && bp != b + b1.size {
        assert nb[bp] == blocks[bp];
      }
    }
  }

  /** After the split writes, the tags of every block of the new map are right. */
  lemma SplitTags(m1: map<int, int>, m2: map<int, int>, blocks: map<int, Block>, b: int, b1: Block, b2: Block)
    requires TagsOk(m1, blocks) && SameTags(m1, m2, blocks - {b}) && SplitsInto(blocks, b, b1, b2)
    requires Get(m2, b - 8) == Tag(b1) && Get(m2, b + b1.size - 16) == Tag(b1)
    requires Get(m2, b + b1.size - 8) == Tag(b2) && Get(m2, b + blocks[b].size - 16) == Tag(b2)
    ensures TagsOk(m2, SplitMap(blocks, b, b1, b2))
  {
    var nb := SplitMap(blocks, b, b1, b2);
    var c := b + b1.size;
    forall bp | bp in nb
      ensures Get(m2, bp - 8) == Tag(nb[bp]) && Get(m2, bp + nb[bp].size - 16) == Tag(nb[bp])
    {
      if bp != b && bp != c {
        assert bp in blocks - {b};
        assert nb[bp] == blocks[bp];
      }
    }
  }

  /** After the split writes, PREV_BLKP still finds every block's predecessor. */
  lemma SplitPrev(m1: map<int, int>, m2: map<int, int>, blocks: map<int, Block>, b: int, b1: Block, b2: Block)
    requires Disjoint(blocks) && (forall bp :: bp in blocks ==> blocks[bp].size % 16 == 0)
    requires TagsOk(m1, blocks) && PrevOk(m1, blocks)
    requires SameTags(m1, m2, blocks - {b}) && SplitsInto(blocks, b, b1, b2)
    requires TagsOk(m2, SplitMap(blocks, b, b1, b2))
    ensures PrevOk(m2, SplitMap(blocks, b, b1, b2))
  {
    var nb := SplitMap(blocks, b, b1, b2);
    SplitPointFresh(blocks, b, b1, b2);
    forall bp | bp in nb
      ensures || bp == nb[bp].page + 32
              || (PrevBlkp(m2, bp) in nb && PrevBlkp(m2, bp) + nb[PrevBlkp(m2, bp)].size == bp)
    {
      SplitPrevAt(m1, m2, blocks, b, b1, b2, bp);
    }
  }

  /** PREV_BLKP after a split, at one block. */
  lemma SplitPrevAt(m1: map<int, int>, m2: map<int, int>, blocks: map<int, Block>, b: int, b1: Block, b2: Block, bp: int)
    requires (forall bp :: bp in blocks ==> blocks[bp].size % 16 == 0) && PrevOk(m1, blocks)
    requires SplitsInto(blocks, b, b1, b2) && b + b1.size !in blocks
    requires TagsOk(m2, SplitMap(blocks, b, b1, b2))
    requires bp in SplitMap(blocks, b, b1, b2)
    ensures || bp == SplitMap(blocks, b, b1, b2)[bp].page + 32
            || (PrevBlkp(m2, bp) in SplitMap(blocks, b, b1, b2)
                && PrevBlkp(m2, bp) + SplitMap(blocks, b, b1, b2)[PrevBlkp(m2, bp)].size == bp)
  {
    var nb := SplitMap(blocks, b, b1, b2);
    var c := b + b1.size;
    if bp == c {
      PrevVia(m2, nb, c, b);
    } else if bp != nb[bp].page + 32 {
      var y := PrevBlkp(m1, bp);
      assert y in blocks && y + blocks[y].size == bp;
      if y == b {
        AlignedDiff(blocks[b].size, b1.size);
        PrevVia(m2, nb, bp, c);
      } else {
        PrevVia(m2, nb, bp, y);
      }
    }
  }


  /** Splitting block `b`, with the four tag words set as set_allocated sets them, keeps the boundary-tag invariant. */
  lemma SplitCore(m1: map<int, int>, m2: map<int, int>, pages: map<int, int>, blocks: map<int, Block>, b: int, b1: Block, b2: Block)
    requires Core(m1, pages, blocks) && SplitsInto(blocks, b, b1, b2)
    requires SameControl(m1, m2, pages, blocks - {b})
    requires Get(m2, b - 8) == Tag(b1) && Get(m2, b + b1.size - 16) == Tag(b1)
    requires Get(m2, b + b1.size - 8) == Tag(b2) && Get(m2, b + blocks[b].size - 16) == Tag(b2)
    ensures Core(m2, pages, SplitMap(blocks, b, b1, b2))
  {
    SplitBlocks(pages, blocks, b, b1, b2);
    SplitNext(pages, blocks, b, b1, b2);
    SplitTags(m1, m2, blocks, b, b1, b2);
    forall bp | bp in blocks
      ensures blocks[bp].size % 16 == 0
    {
      assert Shaped(bp, blocks[bp]);
    }
    SplitPrev(m1, m2, blocks, b, b1, b2);
  }

  // ---------------------------------------------------------------------------
  // Tags of blocks that keep their place
  // ---------------------------------------------------------------------------

  /** SameTags over a map holds over any map whose entries are entries of it. */
  lemma SameTagsSub(m1: map<int, int>, m2: map<int, int>, blocks: map<int, Block>, sub: map<int, Block>)
    requires SameTags(m1, m2, blocks)
    requires forall bp :: bp in sub ==> bp in blocks && sub[bp] == blocks[bp]
    ensures SameTags(m1, m2, sub)
  {
    forall bp | bp in sub
      ensures Get(m2, bp - 8) == Get(m1, bp - 8) && Get(m2, bp + sub[bp].size - 16) == Get(m1, bp + sub[bp].size - 16)
    {
      assert bp in blocks;
    }
  }

  /** The tags of a new block map are right when block `x` got its tags written and every other block is an old one whose tags were kept. */
  lemma TagsKept(m1: map<int, int>, m2: map<int, int>, blocks: map<int, Block>, nb: map<int, Block>, x: int)
    requires TagsOk(m1, blocks)
    requires forall bp :: bp in nb && bp != x ==> bp in blocks && nb[bp] == blocks[bp]
    requires SameTags(m1, m2, nb - {x})
    requires x in nb ==> Get(m2, x - 8) == Tag(nb[x]) && Get(m2, x + nb[x].size - 16) == Tag(nb[x])
    ensures TagsOk(m2, nb)
  {
    forall bp | bp in nb
      ensures Get(m2, bp - 8) == Tag(nb[bp]) && Get(m2, bp + nb[bp].size - 16) == Tag(nb[bp])
    {
      if bp != x {
        assert bp in nb - {x};
        assert bp in blocks;
      }
    }
  }

  /** Blocks are multiples of 16 long. */
  ghost predicate Sized(blocks: map<int, Block>)
  {
    forall bp :: bp in blocks ==> blocks[bp].size % 16 == 0
  }

  /** BlocksOk gives Sized. */
  lemma SizedOf(pages: map<int, int>, blocks: map<int, Block>)
    requires BlocksOk(pages, blocks)
    ensures Sized(blocks)
  {
    forall bp | bp in blocks
      ensures blocks[bp].size % 16 == 0
    {
      assert Shaped(bp, blocks[bp]);
    }
  }

  // ---------------------------------------------------------------------------
  // Rewriting the allocated bit
  // ---------------------------------------------------------------------------

  /** The block map after block `x` gets allocated bit `a`. */
  function RetagMap(blocks: map<int, Block>, x: int, a: bool): (r: map<int, Block>)
    requires x in blocks
    ensures r.Keys == blocks.Keys && r[x].isAllocated == a
    ensures forall bp :: bp in blocks ==> r[bp].size == blocks[bp].size && r[bp].page == blocks[bp].page
    ensures forall bp :: bp in blocks && bp != x ==> r[bp] == blocks[bp]
  {
    blocks[x := blocks[x].(isAllocated := a)]
  }

  /** Rewriting a block's allocated bit keeps the block structure. */
  lemma RetagBlocks(pages: map<int, int>, blocks: map<int, Block>, x: int, a: bool)
    requires BlocksOk(pages, blocks) && NextOk(pages, blocks) && x in blocks
    ensures BlocksOk(pages, RetagMap(blocks, x, a)) && NextOk(pages, RetagMap(blocks, x, a))
  {
    RetagPlaced(pages, blocks, x, a);
    RetagDisjoint(blocks, x, a);
  }

  /** Retagging keeps every block in its place and shape, and what follows it. */
  lemma RetagPlaced(pages: map<int, int>, blocks: map<int, Block>, x: int, a: bool)
    requires BlocksOk(pages, blocks) && NextOk(pages, blocks) && x in blocks
    ensures Placed(pages, RetagMap(blocks, x, a)) && NextOk(pages, RetagMap(blocks, x, a))
    ensures (forall bp :: bp in RetagMap(blocks, x, a) ==> Shaped(bp, RetagMap(blocks, x, a)[bp]))
    ensures FirstBlocks(pages, RetagMap(blocks, x, a))
  {
    var nb := RetagMap(blocks, x, a);
    forall bp | bp in nb
      ensures InPage(pages, bp, nb[bp]) && Shaped(bp, nb[bp])
      ensures bp + nb[bp].size in nb || bp + nb[bp].size == PageEnd(pages, nb[bp])
    {
      assert InPage(pages, bp, blocks[bp]) && Shaped(bp, blocks[bp]);
    }
  }

  /** Retagging keeps the blocks disjoint. */
  lemma RetagDisjoint(blocks: map<int, Block>, x: int, a: bool)
    requires Disjoint(blocks) && x in blocks
    ensures Disjoint(RetagMap(blocks, x, a))
  {
    var nb := RetagMap(blocks, x, a);
    forall p, q | p in nb && q in nb && p < q
      ensures p + nb[p].size <= q
    {
      assert Apart(blocks, p, q);
    }
  }


  /** PREV_BLKP still finds every predecessor once the tags of the retagged map are in place. */
  lemma RetagPrev(m1: map<int, int>, m2: map<int, int>, blocks: map<int, Block>, x: int, a: bool)
    requires Sized(blocks) && PrevOk(m1, blocks) && x in blocks
    requires TagsOk(m2, RetagMap(blocks, x, a))
    ensures PrevOk(m2, RetagMap(blocks, x, a))
  {
    var nb := RetagMap(blocks, x, a);
    forall bp | bp in nb
      ensures || bp == nb[bp].page + 32
              || (PrevBlkp(m2, bp) in nb && PrevBlkp(m2, bp) + nb[PrevBlkp(m2, bp)].size == bp)
    {
      if bp != nb[bp].page + 32 {
        var w := PrevBlkp(m1, bp);
        assert w in blocks && w + blocks[w].size == bp;
        PrevVia(m2, nb, bp, w);
      }
    }
  }

  /** Rewriting block x's allocated bit in its header and footer keeps the boundary-tag invariant. */
  lemma RetagCore(m1: map<int, int>, m2: map<int, int>, pages: map<int, int>, blocks: map<int, Block>, x: int, a: bool)
    requires Core(m1, pages, blocks) && x in blocks
    requires SameControl(m1, m2, pages, blocks - {x})
    requires Get(m2, x - 8) == Tag(RetagMap(blocks, x, a)[x])
    requires Get(m2, x + blocks[x].size - 16) == Tag(RetagMap(blocks, x, a)[x])
    ensures Core(m2, pages, RetagMap(blocks, x, a))
  {
    var nb := RetagMap(blocks, x, a);
    RetagBlocks(pages, blocks, x, a);
    SameTagsSub(m1, m2, blocks - {x}, nb - {x});
    TagsKept(m1, m2, blocks, nb, x);
    SizedOf(pages, blocks);
    RetagPrev(m1, m2, blocks, x, a);
  }

  // ---------------------------------------------------------------------------
  // Merging neighbours
  // ---------------------------------------------------------------------------

  /** Block `x` has a right neighbour in the same page. */
  ghost predicate HasNext(blocks: map<int, Block>, x: int)
  {
    && x in blocks && blocks[x].size > 0
    && x + blocks[x].size in blocks && blocks[x + blocks[x].size].page == blocks[x].page
  }

  /** The block map after block `x` absorbs its right neighbour; the merged block is free. */
  function MergeMap(blocks: map<int, Block>, x: int): (r: map<int, Block>)
    requires x in blocks && blocks[x].size > 0 && x + blocks[x].size in blocks
    ensures x in r && r[x] == Block(blocks[x].size + blocks[x + blocks[x].size].size, false, blocks[x].page)
    ensures forall bp :: bp in r <==> bp in blocks && bp != x + blocks[x].size
    ensures forall bp :: bp in r && bp != x ==> r[bp] == blocks[bp]
  {
    var y := x + blocks[x].size;
    (blocks - {y})[x := Block(blocks[x].size + blocks[y].size, false, blocks[x].page)]
  }

  /** Two neighbouring blocks share a page. */
  lemma NextSamePage(pages: map<int, int>, blocks: map<int, Block>, x: int)
    requires PagesDisjoint(pages) && Placed(pages, blocks)
    requires x in blocks && x + blocks[x].size in blocks
    ensures blocks[x + blocks[x].size].page == blocks[x].page
  {
    var y := x + blocks[x].size;
    var px, py := blocks[x].page, blocks[y].page;
    assert InPage(pages, x, blocks[x]) && InPage(pages, y, blocks[y]);
    PageOrder(pages, px, py);
    PageOrder(pages, py, px);
  }

  /** Of two pages, the lower one ends before the higher one starts. */
  lemma PageOrder(pages: map<int, int>, p: int, q: int)
    requires PagesDisjoint(pages) && p in pages && q in pages
    ensures p < q ==> p + pages[p] <= q
  {
  }

  /** Of two blocks, the lower one ends before the higher one starts. */
  lemma BlockOrder(blocks: map<int, Block>, p: int, q: int)
    requires Disjoint(blocks) && p in blocks && q in blocks
    ensures p < q ==> p + blocks[p].size <= q
  {
    assert Apart(blocks, p, q);
  }

  /** Merging keeps the blocks in their pages, well shaped and disjoint. */
  lemma MergeBlocks(pages: map<int, int>, blocks: map<int, Block>, x: int)
    requires BlocksOk(pages, blocks) && HasNext(blocks, x)
    ensures BlocksOk(pages, MergeMap(blocks, x))
  {
    MergeDisjoint(blocks, x);
    MergePlaced(pages, blocks, x);
    assert Placed(pages, MergeMap(blocks, x));
  }

  /** The merged block overlaps no other block. */
  lemma MergeDisjoint(blocks: map<int, Block>, x: int)
    requires Disjoint(blocks) && HasNext(blocks, x)
    ensures Disjoint(MergeMap(blocks, x))
  {
    var nb := MergeMap(blocks, x);
    var y := x + blocks[x].size;
    forall p, q | p in nb && q in nb && p < q
      ensures p + nb[p].size <= q
    {
      if p == x {
        assert Apart(blocks, x, q);
        assert Apart(blocks, y, q);
      } else if q != x {
        assert Apart(blocks, p, q);
      } else {
        assert Apart(blocks, p, x);
      }
    }
  }

  /** The merged block lies in its page and is well shaped; the first blocks of the pages stay. */
  lemma MergePlaced(pages: map<int, int>, blocks: map<int, Block>, x: int)
    requires Placed(pages, blocks) && (forall bp :: bp in blocks ==> Shaped(bp, blocks[bp]))
    requires FirstBlocks(pages, blocks) && HasNext(blocks, x)
    ensures Placed(pages, MergeMap(blocks, x))
    ensures forall bp :: bp in MergeMap(blocks, x) ==> Shaped(bp, MergeMap(blocks, x)[bp])
    ensures FirstBlocks(pages, MergeMap(blocks, x))
  {
    assert InPage(pages, x, blocks[x]);
    MergeInPage(pages, blocks, x);
    MergeFirst(pages, blocks, x);
  }

  /** The merged block lies in its page and is well shaped. */
  lemma MergeInPage(pages: map<int, int>, blocks: map<int, Block>, x: int)
    requires Placed(pages, blocks) && (forall bp :: bp in blocks ==> Shaped(bp, blocks[bp])) && HasNext(blocks, x)
    ensures Placed(pages, MergeMap(blocks, x))
    ensures forall bp :: bp in MergeMap(blocks, x) ==> Shaped(bp, MergeMap(blocks, x)[bp])
  {
    var nb := MergeMap(blocks, x);
    forall bp | bp in nb
      ensures InPage(pages, bp, nb[bp]) && Shaped(bp, nb[bp])
    {
      MergeInPageAt(pages, blocks, x, bp);
    }
  }

  /** One block of the merged map lies in its page and is well shaped. */
  lemma MergeInPageAt(pages: map<int, int>, blocks: map<int, Block>, x: int, bp: int)
    requires Placed(pages, blocks) && (forall bp :: bp in blocks ==> Shaped(bp, blocks[bp])) && HasNext(blocks, x)
    requires bp in MergeMap(blocks, x)
    ensures InPage(pages, bp, MergeMap(blocks, x)[bp]) && Shaped(bp, MergeMap(blocks, x)[bp])
  {
    var y := x + blocks[x].size;
    assert InPage(pages, bp, blocks[bp]) && Shaped(bp, blocks[bp]);
    if bp == x {
      assert InPage(pages, y, blocks[y]) && Shaped(y, blocks[y]);
      AlignedSum(blocks[x].size, blocks[y].size);
    }
  }

  /** The absorbed block is never the first block of a page. */
  lemma MergeFirst(pages: map<int, int>, blocks: map<int, Block>, x: int)
    requires FirstBlocks(pages, blocks) && HasNext(blocks, x)
    requires blocks[x].page + 32 <= x
    ensures FirstBlocks(pages, MergeMap(blocks, x))
  {
    var nb := MergeMap(blocks, x);
    var y := x + blocks[x].size;
    forall pg | pg in pages
      ensures pg + 32 in nb && nb[pg + 32].page == pg
    {
      assert pg + 32 in blocks && blocks[pg + 32].page == pg;
      assert pg + 32 != y;
    }
  }

  /** After a merge, every block is still followed by a block or its page's end. */
  lemma MergeNext(pages: map<int, int>, blocks: map<int, Block>, x: int)
    requires Big(blocks) && Disjoint(blocks) && NextOk(pages, blocks) && HasNext(blocks, x)
    ensures NextOk(pages, MergeMap(blocks, x))
  {
    var nb := MergeMap(blocks, x);
    var y := x + blocks[x].size;
    forall bp | bp in nb
      ensures bp + nb[bp].size in nb || bp + nb[bp].size == PageEnd(pages, nb[bp])
    {
      if bp == x {
        assert y + blocks[y].size in blocks || y + blocks[y].size == PageEnd(pages, blocks[y]);
        assert blocks[y].size >= 32;
      } else {
        assert bp + blocks[bp].size in blocks || bp + blocks[bp].size == PageEnd(pages, blocks[bp]);
        BlockOrder(blocks, bp, x);
        BlockOrder(blocks, x, bp);
      }
    }
  }

  /** After a merge whose tags are in place, PREV_BLKP still finds every predecessor. */
  lemma MergePrev(m1: map<int, int>, m2: map<int, int>, blocks: map<int, Block>, x: int)
    requires Sized(blocks) && PrevOk(m1, blocks) && HasNext(blocks, x)
    requires TagsOk(m2, MergeMap(blocks, x))
    ensures PrevOk(m2, MergeMap(blocks, x))
  {
    var nb := MergeMap(blocks, x);
    var y := x + blocks[x].size;
    forall bp | bp in nb
      ensures || bp == nb[bp].page + 32
              || (PrevBlkp(m2, bp) in nb && PrevBlkp(m2, bp) + nb[PrevBlkp(m2, bp)].size == bp)
    {
      if bp != nb[bp].page + 32 {
        var w := PrevBlkp(m1, bp);
        var v := if w == y then x else w;
        assert v in nb;
        MergePrevAt(m2, blocks, x, bp, w);
      }
    }
  }

  /** PREV_BLKP after a merge, at one block `bp` whose left neighbour was `w`. */
  lemma MergePrevAt(m2: map<int, int>, blocks: map<int, Block>, x: int, bp: int, w: int)
    requires HasNext(blocks, x) && Sized(blocks)
    requires bp in blocks && bp != x + blocks[x].size && w in blocks && w + blocks[w].size == bp
    requires Get(m2, bp - 16) == Tag(MergeMap(blocks, x)[if w == x + blocks[x].size then x else w])
    ensures PrevBlkp(m2, bp) in MergeMap(blocks, x)
    ensures PrevBlkp(m2, bp) + MergeMap(blocks, x)[PrevBlkp(m2, bp)].size == bp
  {
    var nb := MergeMap(blocks, x);
    if w == x + blocks[x].size {
      AlignedSum(blocks[x].size, blocks[w].size);
      PrevVia(m2, nb, bp, x);
    } else {
      PrevVia(m2, nb, bp, w);
    }
  }



  /** Merging x with its right neighbour, with the merged tags written, keeps the boundary-tag invariant. */
  lemma MergeCore(m1: map<int, int>, m2: map<int, int>, pages: map<int, int>, blocks: map<int, Block>, x: int)
    requires Core(m1, pages, blocks) && HasNext(blocks, x)
    requires SameControl(m1, m2, pages, blocks - {x, x + blocks[x].size})
    requires Get(m2, x - 8) == Tag(MergeMap(blocks, x)[x])
    requires Get(m2, x + MergeMap(blocks, x)[x].size - 16) == Tag(MergeMap(blocks, x)[x])
    ensures Core(m2, pages, MergeMap(blocks, x))
  {
    MergeBlocks(pages, blocks, x);
    MergeNext(pages, blocks, x);
    MergeTags(m1, m2, blocks, x);
    SizedOf(pages, blocks);
    MergePrev(m1, m2, blocks, x);
  }

  /** The tags after a merge: the merged block's as written, every other block's kept. */
  lemma MergeTags(m1: map<int, int>, m2: map<int, int>, blocks: map<int, Block>, x: int)
    requires TagsOk(m1, blocks) && HasNext(blocks, x)
    requires SameTags(m1, m2, blocks - {x, x + blocks[x].size})
    requires Get(m2, x - 8) == Tag(MergeMap(blocks, x)[x])
    requires Get(m2, x + MergeMap(blocks, x)[x].size - 16) == Tag(MergeMap(blocks, x)[x])
    ensures TagsOk(m2, MergeMap(blocks, x))
  {
    var nb := MergeMap(blocks, x);
    SameTagsSub(m1, m2, blocks - {x, x + blocks[x].size}, nb - {x});
    TagsKept(m1, m2, blocks, nb, x);
  }

  /** After a three-way merge whose tags are in place, PREV_BLKP still finds every predecessor. */
  lemma Merge3Prev(m1: map<int, int>, m2: map<int, int>, blocks: map<int, Block>, x: int)
    requires Sized(blocks) && PrevOk(m1, blocks) && HasNext(blocks, x)
    requires HasNext(MergeMap(blocks, x), x)
    requires TagsOk(m2, MergeMap(MergeMap(blocks, x), x))
    ensures PrevOk(m2, MergeMap(MergeMap(blocks, x), x))
  {
    var nb1 := MergeMap(blocks, x);
    var nb := MergeMap(nb1, x);
    var y := x + blocks[x].size;
    var z := x + nb1[x].size;
    forall bp | bp in nb
      ensures || bp == nb[bp].page + 32
              || (PrevBlkp(m2, bp) in nb && PrevBlkp(m2, bp) + nb[PrevBlkp(m2, bp)].size == bp)
    {
      if bp != nb[bp].page + 32 {
        var w := PrevBlkp(m1, bp);
        var v := if w == z then x else w;
        assert v in nb;
        Merge3PrevAt(m2, blocks, x, bp, w);
      }
    }
  }

  /** PREV_BLKP after a three-way merge, at one block `bp` whose left neighbour was `w`. */
  lemma Merge3PrevAt(m2: map<int, int>, blocks: map<int, Block>, x: int, bp: int, w: int)
    requires HasNext(blocks, x) && HasNext(MergeMap(blocks, x), x) && Sized(blocks)
    requires bp in MergeMap(MergeMap(blocks, x), x) && w in blocks && w + blocks[w].size == bp
    requires w != x && w != x + blocks[x].size
    requires Get(m2, bp - 16) == Tag(MergeMap(MergeMap(blocks, x), x)[if w == x + MergeMap(blocks, x)[x].size then x else w])
    ensures PrevBlkp(m2, bp) in MergeMap(MergeMap(blocks, x), x)
    ensures PrevBlkp(m2, bp) + MergeMap(MergeMap(blocks, x), x)[PrevBlkp(m2, bp)].size == bp
  {
    var nb1 := MergeMap(blocks, x);
    var nb := MergeMap(nb1, x);
    var y := x + blocks[x].size;
    var z := x + nb1[x].size;
    if w == z {
      AlignedSum(blocks[x].size, blocks[y].size);
      AlignedSum(blocks[x].size + blocks[y].size, blocks[z].size);
      PrevVia(m2, nb, bp, x);
    } else {
      PrevVia(m2, nb, bp, w);
    }
  }



  /** The tags after a three-way merge: the merged block's as written, every other block's kept. */
  lemma Merge3Tags(m1: map<int, int>, m2: map<int, int>, blocks: map<int, Block>, x: int)
    requires TagsOk(m1, blocks) && HasNext(blocks, x) && HasNext(MergeMap(blocks, x), x)
    requires SameTags(m1, m2, blocks - {x, x + blocks[x].size, x + MergeMap(blocks, x)[x].size})
    requires Get(m2, x - 8) == Tag(MergeMap(MergeMap(blocks, x), x)[x])
    requires Get(m2, x + MergeMap(MergeMap(blocks, x), x)[x].size - 16) == Tag(MergeMap(MergeMap(blocks, x), x)[x])
    ensures TagsOk(m2, MergeMap(MergeMap(blocks, x), x))
  {
    var nb1 := MergeMap(blocks, x);
    var nb := MergeMap(nb1, x);
    SameTagsSub(m1, m2, blocks - {x, x + blocks[x].size, x + nb1[x].size}, nb - {x});
    TagsKept(m1, m2, blocks, nb, x);
  }

  /** Merging x with both the next block and the one after, with the merged tags written, keeps the boundary-tag invariant. */
  lemma Merge3Core(m1: map<int, int>, m2: map<int, int>, pages: map<int, int>, blocks: map<int, Block>, x: int)
    requires Core(m1, pages, blocks) && HasNext(blocks, x) && HasNext(MergeMap(blocks, x), x)
    requires SameControl(m1, m2, pages, blocks - {x, x + blocks[x].size, x + MergeMap(blocks, x)[x].size})
    requires Get(m2, x - 8) == Tag(MergeMap(MergeMap(blocks, x), x)[x])
    requires Get(m2, x + MergeMap(MergeMap(blocks, x), x)[x].size - 16) == Tag(MergeMap(MergeMap(blocks, x), x)[x])
    ensures Core(m2, pages, MergeMap(MergeMap(blocks, x), x))
  {
    var nb1 := MergeMap(blocks, x);
    var nb := MergeMap(nb1, x);
    MergeBlocks(pages, blocks, x);
    MergeNext(pages, blocks, x);
    MergeBlocks(pages, nb1, x);
    MergeNext(pages, nb1, x);
    Merge3Tags(m1, m2, blocks, x);
    SizedOf(pages, blocks);
    Merge3Prev(m1, m2, blocks, x);
  }
}
