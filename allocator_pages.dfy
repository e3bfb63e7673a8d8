/// Pages entering and leaving the heap of Allocator/mm.c: extend lays out a
/// fresh page from the page provider, and mm_free hands a page back once its
/// single block is free.  The lemmas show that the boundary-tag invariant
/// survives both, and that mm_free's whole-page test recognises exactly a page
/// holding one block.
module AllocatorPages {
  import opened AllocatorCodec
  import opened AllocatorHeap
  import opened AllocatorBlocks

  /** The span [base, base + size) handed out by the page provider: non-null, aligned, and clear of every page of the heap. */
  ghost predicate Fresh(pages: map<int, int>, base: int, size: int)
  {
    && base > 0 && base % 16 == 0
    && forall b :: b in pages ==> b + pages[b] <= base || base + size <= b
  }

  /** Address `a` lies in no page of the heap. */
  ghost predicate Outside(pages: map<int, int>, a: int)
  {
    forall b :: b in pages ==> a < b || b + pages[b] <= a
  }

  /** A write outside every page keeps every control word. */
  lemma OutsideWrite(m: map<int, int>, pages: map<int, int>, blocks: map<int, Block>, a: int, v: int)
    requires PagesShaped(pages) && Placed(pages, blocks) && Big(blocks) && Outside(pages, a)
    ensures SameControl(m, m[a := v], pages, blocks)
  {
    forall bp | bp in blocks
      ensures Get(m[a := v], bp - 8) == Get(m, bp - 8)
      ensures Get(m[a := v], bp + blocks[bp].size - 16) == Get(m, bp + blocks[bp].size - 16)
    {
      assert InPage(pages, bp, blocks[bp]);
      GetOther(m, a, v, bp - 8);
      GetOther(m, a, v, bp + blocks[bp].size - 16);
    }
    forall b | b in pages
      ensures Get(m[a := v], b + 8) == Get(m, b + 8) && Get(m[a := v], b + 16) == Get(m, b + 16)
      ensures Get(m[a := v], b + pages[b] - 8) == Get(m, b + pages[b] - 8)
    {
      assert pages[b] >= 64;
      GetOther(m, a, v, b + 8);
      GetOther(m, a, v, b + 16);
      GetOther(m, a, v, b + pages[b] - 8);
    }
  }

  /** A write outside every page keeps the free list, whose nodes are blocks. */
  lemma OutsideWriteList(m: map<int, int>, head: int, fl: seq<int>, pages: map<int, int>, blocks: map<int, Block>, a: int, v: int)
    requires ListOk(m, head, fl) && NodesAreBlocks(blocks, fl)
    requires Placed(pages, blocks) && Big(blocks) && Outside(pages, a)
    ensures ListOk(m[a := v], head, fl)
  {
    forall i | 0 <= i < |fl|
      ensures Get(m[a := v], fl[i]) == Get(m, fl[i]) && Get(m[a := v], fl[i] + 8) == Get(m, fl[i] + 8)
    {
      assert InPage(pages, fl[i], blocks[fl[i]]);
      GetOther(m, a, v, fl[i]);
      GetOther(m, a, v, fl[i] + 8);
    }
  }

  /** Every word of a fresh page lies outside the heap's pages. */
  lemma FreshOutside(pages: map<int, int>, base: int, size: int, a: int)
    requires Fresh(pages, base, size) && base <= a < base + size
    ensures Outside(pages, a)
  {
  }

  // ---------------------------------------------------------------------------
  // Adding a page
  // ---------------------------------------------------------------------------

  /** The block extend creates: everything between the prolog and the terminator, free. */
  function PageBlock(base: int, size: int): Block
    requires size >= 32
  {
    Block(size - 32, false, base)
  }

  /** The block map after extend adds the page at `base`. */
  function AddPageMap(blocks: map<int, Block>, base: int, size: int): map<int, Block>
    requires size >= 32
  {
    blocks[base + 32 := PageBlock(base, size)]
  }

  /** A fresh page's first block is not yet a block of the heap. */
  lemma FreshBlock(pages: map<int, int>, blocks: map<int, Block>, base: int, size: int)
    requires Placed(pages, blocks) && Fresh(pages, base, size) && size >= 64
    ensures forall bp :: bp in blocks ==> bp + blocks[bp].size <= base || base + size <= bp
    ensures base + size !in blocks
  {
    forall bp | bp in blocks
      ensures bp + blocks[bp].size <= base || base + size < bp
    {
      assert InPage(pages, bp, blocks[bp]);
    }
  }

  /** Adding a fresh page with its one block keeps the page and block structure. */
  lemma AddPageBlocks(pages: map<int, int>, blocks: map<int, Block>, base: int, size: int)
    requires PagesOk(pages) && BlocksOk(pages, blocks) && NextOk(pages, blocks)
    requires Fresh(pages, base, size) && size % 16 == 0 && size >= 64
    ensures PagesOk(pages[base := size])
    ensures BlocksOk(pages[base := size], AddPageMap(blocks, base, size))
    ensures NextOk(pages[base := size], AddPageMap(blocks, base, size))
  {
    FreshBlock(pages, blocks, base, size);
    AddPageDisjoint(blocks, base, size);
    AddPagePlaced(pages, blocks, base, size);
    AddPageNext(pages, blocks, base, size);
  }

  /** The new block overlaps no block of the heap. */
  lemma AddPageDisjoint(blocks: map<int, Block>, base: int, size: int)
    requires Disjoint(blocks) && size >= 64
    requires forall bp :: bp in blocks ==> bp + blocks[bp].size <= base || base + size <= bp
    ensures Disjoint(AddPageMap(blocks, base, size))
  {
    var nb := AddPageMap(blocks, base, size);
    forall p, q | p in nb && q in nb && p < q
      ensures p + nb[p].size <= q
    {
      if p != base + 32 && q != base + 32 {
        assert Apart(blocks, p, q);
      }
    }
  }

  /** The new page does not overlap the others, and every block lies in its page, well shaped. */
  lemma AddPagePlaced(pages: map<int, int>, blocks: map<int, Block>, base: int, size: int)
    requires PagesOk(pages) && Placed(pages, blocks) && (forall bp :: bp in blocks ==> Shaped(bp, blocks[bp]))
    requires Fresh(pages, base, size) && size % 16 == 0 && size >= 64
    ensures PagesOk(pages[base := size])
    ensures Placed(pages[base := size], AddPageMap(blocks, base, size))
    ensures forall bp :: bp in AddPageMap(blocks, base, size) ==> Shaped(bp, AddPageMap(blocks, base, size)[bp])
  {
    var np, nb := pages[base := size], AddPageMap(blocks, base, size);
    assert base !in pages;
    forall bp | bp in nb
      ensures InPage(np, bp, nb[bp]) && Shaped(bp, nb[bp])
    {
      if bp != base + 32 {
        assert InPage(pages, bp, blocks[bp]) && Shaped(bp, blocks[bp]);
      }
    }
  }

  /** Every block is still followed by a block or its page's end, and every page starts with a block. */
  lemma AddPageNext(pages: map<int, int>, blocks: map<int, Block>, base: int, size: int)
    requires Placed(pages, blocks) && NextOk(pages, blocks) && FirstBlocks(pages, blocks)
    requires Fresh(pages, base, size) && size >= 64
    ensures NextOk(pages[base := size], AddPageMap(blocks, base, size))
    ensures FirstBlocks(pages[base := size], AddPageMap(blocks, base, size))
  {
    var np, nb := pages[base := size], AddPageMap(blocks, base, size);
    assert base !in pages;
    forall bp | bp in nb
      ensures bp + nb[bp].size in nb || bp + nb[bp].size == PageEnd(np, nb[bp])
    {
      if bp != base + 32 {
        assert InPage(pages, bp, blocks[bp]);
        assert bp + blocks[bp].size in blocks || bp + blocks[bp].size == PageEnd(pages, blocks[bp]);
      }
    }
    forall pg | pg in np
      ensures pg + 32 in nb && nb[pg + 32].page == pg
    {
      if pg != base {
        assert pg + 32 in blocks;
      }
    }
  }

  /** After the page's words are written, PREV_BLKP still finds every predecessor. */
  lemma AddPagePrev(m1: map<int, int>, m2: map<int, int>, pages: map<int, int>, blocks: map<int, Block>, base: int, size: int)
    requires PrevOk(m1, blocks) && SameTags(m1, m2, blocks) && Placed(pages, blocks) && Fresh(pages, base, size)
    requires size >= 64
    ensures PrevOk(m2, AddPageMap(blocks, base, size))
  {
    var nb := AddPageMap(blocks, base, size);
    PrevFrame(m1, m2, blocks);
    FreshBlock(pages, blocks, base, size);
    forall bp | bp in nb
      ensures || bp == nb[bp].page + 32
              || (PrevBlkp(m2, bp) in nb && PrevBlkp(m2, bp) + nb[PrevBlkp(m2, bp)].size == bp)
    {
      if bp != base + 32 && bp != nb[bp].page + 32 {
        var w := PrevBlkp(m2, bp);
        assert w in blocks && w + blocks[w].size == bp;
      }
    }
  }

  /** After the page's words are written, every page has its prolog and terminator. */
  lemma AddPageFrames(m1: map<int, int>, m2: map<int, int>, pages: map<int, int>, base: int, size: int)
    requires FramesOk(m1, pages) && SameFrames(m1, m2, pages)
    requires Get(m2, base + 8) == Pack(16, 1) && Get(m2, base + 16) == Pack(16, 1)
    requires Get(m2, base + size - 8) == Pack(0, 1)
    ensures FramesOk(m2, pages[base := size])
  {
    var np := pages[base := size];
    forall b | b in np
      ensures Get(m2, b + 8) == Pack(16, 1) && Get(m2, b + 16) == Pack(16, 1) && Get(m2, b + np[b] - 8) == Pack(0, 1)
    {
      if b != base {
        assert b in pages;
      }
    }
  }

  /** extend's page layout: padding, prolog, one free block and terminator, added to an intact heap, gives an intact heap. */
  lemma AddPageCore(m1: map<int, int>, m2: map<int, int>, pages: map<int, int>, blocks: map<int, Block>, base: int, size: int)
    requires Core(m1, pages, blocks)
    requires Fresh(pages, base, size) && size % 16 == 0 && size >= 64
    requires SameControl(m1, m2, pages, blocks)
    requires Get(m2, base + 8) == Pack(16, 1) && Get(m2, base + 16) == Pack(16, 1)
    requires Get(m2, base + 24) == Tag(PageBlock(base, size)) && Get(m2, base + size - 16) == Tag(PageBlock(base, size))
    requires Get(m2, base + size - 8) == Pack(0, 1)
    ensures Core(m2, pages[base := size], AddPageMap(blocks, base, size))
  {
    var nb := AddPageMap(blocks, base, size);
    AddPageBlocks(pages, blocks, base, size);
    FreshBlock(pages, blocks, base, size);
    AddPageTags(m1, m2, blocks, base, size);
    AddPageFrames(m1, m2, pages, base, size);
    AddPagePrev(m1, m2, pages, blocks, base, size);
  }

  /** After the page's words are written, every block's tags are right. */
  lemma AddPageTags(m1: map<int, int>, m2: map<int, int>, blocks: map<int, Block>, base: int, size: int)
    requires TagsOk(m1, blocks) && SameTags(m1, m2, blocks) && size >= 64
    requires forall bp :: bp in blocks ==> bp + blocks[bp].size <= base || base + size <= bp
    requires Get(m2, base + 24) == Tag(PageBlock(base, size)) && Get(m2, base + size - 16) == Tag(PageBlock(base, size))
    ensures TagsOk(m2, AddPageMap(blocks, base, size))
  {
    var nb := AddPageMap(blocks, base, size);
    assert base + 32 !in blocks;
    SameTagsSub(m1, m2, blocks, nb - {base + 32});
    TagsKept(m1, m2, blocks, nb, base + 32);
  }

  // ---------------------------------------------------------------------------
  // Dropping a page
  // ---------------------------------------------------------------------------

  /** Block `x` fills its page: it starts after the prolog and ends at the terminator. */
  ghost predicate FillsPage(pages: map<int, int>, blocks: map<int, Block>, x: int)
  {
    x in blocks && x == blocks[x].page + 32 && x + blocks[x].size == PageEnd(pages, blocks[x])
  }

  /** A block filling its page is the only block there. */
  lemma OnlyBlock(pages: map<int, int>, blocks: map<int, Block>, x: int)
    requires Placed(pages, blocks) && Disjoint(blocks) && Big(blocks) && FillsPage(pages, blocks, x)
    ensures forall bp :: bp in blocks && bp != x ==> blocks[bp].page != blocks[x].page
  {
    forall bp | bp in blocks && bp != x
      ensures blocks[bp].page != blocks[x].page
    {
      assert InPage(pages, bp, blocks[bp]) && InPage(pages, x, blocks[x]);
      BlockOrder(blocks, bp, x);
      BlockOrder(blocks, x, bp);
    }
  }

  /** Dropping a page together with the one block filling it keeps the page and block structure. */
  lemma RemovePageBlocks(pages: map<int, int>, blocks: map<int, Block>, x: int)
    requires PagesOk(pages) && BlocksOk(pages, blocks) && NextOk(pages, blocks) && FillsPage(pages, blocks, x)
    ensures PagesOk(pages - {blocks[x].page})
    ensures BlocksOk(pages - {blocks[x].page}, blocks - {x})
    ensures NextOk(pages - {blocks[x].page}, blocks - {x})
  {
    var pg := blocks[x].page;
    var np, nb := pages - {pg}, blocks - {x};
    LayoutOf(pages, blocks);
    OnlyBlock(pages, blocks, x);
    assert InPage(pages, x, blocks[x]);
    forall bp | bp in nb
      ensures InPage(np, bp, nb[bp]) && Shaped(bp, nb[bp])
      ensures bp + nb[bp].size in nb || bp + nb[bp].size == PageEnd(np, nb[bp])
    {
      assert InPage(pages, bp, blocks[bp]) && Shaped(bp, blocks[bp]);
      assert bp + blocks[bp].size in blocks || bp + blocks[bp].size == PageEnd(pages, blocks[bp]);
      PageOrder(pages, pg, blocks[bp].page);
      PageOrder(pages, blocks[bp].page, pg);
    }
    forall p, q | p in nb && q in nb && p < q
      ensures p + nb[p].size <= q
    {
      assert Apart(blocks, p, q);
    }
    forall b | b in np
      ensures b + 32 in nb && nb[b + 32].page == b
    {
      assert b + 32 in blocks && blocks[b + 32].page == b;
    }
  }

  /** Dropping a page together with the one block filling it keeps the boundary-tag invariant. */
  lemma RemovePageCore(m: map<int, int>, pages: map<int, int>, blocks: map<int, Block>, x: int)
    requires Core(m, pages, blocks) && FillsPage(pages, blocks, x)
    ensures Core(m, pages - {blocks[x].page}, blocks - {x})
  {
    RemovePageBlocks(pages, blocks, x);
    LayoutOf(pages, blocks);
    OnlyBlock(pages, blocks, x);
    EndNotBlock(pages, blocks, x);
    RemovePagePrev(m, blocks, x);
    RemovePageWords(m, pages, blocks, x);
  }

  /** Tags and frames of what remains are untouched. */
  lemma RemovePageWords(m: map<int, int>, pages: map<int, int>, blocks: map<int, Block>, x: int)
    requires TagsOk(m, blocks) && FramesOk(m, pages) && x in blocks
    ensures TagsOk(m, blocks - {x}) && FramesOk(m, pages - {blocks[x].page})
  {
  }

  /** A page's end is no block's payload. */
  lemma EndNotBlock(pages: map<int, int>, blocks: map<int, Block>, x: int)
    requires PagesDisjoint(pages) && Placed(pages, blocks) && Big(blocks) && x in blocks
    requires x + blocks[x].size == PageEnd(pages, blocks[x])
    ensures x + blocks[x].size !in blocks
  {
    assert InPage(pages, x, blocks[x]);
    var pg := blocks[x].page;
    forall bp | bp in blocks
      ensures bp != x + blocks[x].size
    {
      assert InPage(pages, bp, blocks[bp]);
      PageOrder(pages, pg, blocks[bp].page);
      PageOrder(pages, blocks[bp].page, pg);
    }
  }

  /** With the block filling a page gone, PREV_BLKP still finds every remaining predecessor. */
  lemma RemovePagePrev(m: map<int, int>, blocks: map<int, Block>, x: int)
    requires PrevOk(m, blocks) && x in blocks
    requires forall bp :: bp in blocks && bp != x ==> blocks[bp].page != blocks[x].page
    requires x == blocks[x].page + 32 && x + blocks[x].size !in blocks
    ensures PrevOk(m, blocks - {x})
  {
    var nb := blocks - {x};
    forall bp | bp in nb
      ensures || bp == nb[bp].page + 32
              || (PrevBlkp(m, bp) in nb && PrevBlkp(m, bp) + nb[PrevBlkp(m, bp)].size == bp)
    {
      if bp != nb[bp].page + 32 {
        var w := PrevBlkp(m, bp);
        assert w in blocks && w + blocks[w].size == bp;
        assert w != x;
      }
    }
  }
}
