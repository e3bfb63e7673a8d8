/// The heap invariant across each path through the allocator's operations
/// (Allocator/mm.c): every lemma here takes a heap that satisfies HeapOk, or
/// the intermediate state mm_free leaves before coalescing, applies the words
/// one path of an operation writes, and shows the result is again a heap whose
/// blocks and free list are the ones named.
module AllocatorOps {
  import opened AllocatorCodec
  import opened AllocatorHeap
  import opened AllocatorBlocks
  import opened AllocatorPages
  import opened AllocatorList
  import opened AllocatorListed
  import opened AllocatorSteps

  /** Between mm_free's retagging and coalesce: block x is free but not yet listed. */
  ghost predicate Freed(m: map<int, int>, head: int, pages: map<int, int>, blocks: map<int, Block>, fl: seq<int>, x: int)
  {
    && Core(m, pages, blocks)
    && ListOk(m, head, fl)
    && Listed(blocks, fl, {x})
    && NoAdjacentFree(blocks, {x})
    && x in blocks && !blocks[x].isAllocated
  }

  /** Listed nodes are blocks. */
  lemma ListedNodes(blocks: map<int, Block>, fl: seq<int>, skip: set<int>)
    requires Listed(blocks, fl, skip)
    ensures NodesAreBlocks(blocks, fl)
  {
  }

  /** The block a Listed predicate skips is not in the list. */
  lemma SkipUnlisted(blocks: map<int, Block>, fl: seq<int>, x: int)
    requires Listed(blocks, fl, {x})
    ensures x !in fl
  {
  }

  /** An address that is no block is no list node. */
  lemma Unlisted(blocks: map<int, Block>, fl: seq<int>, y: int)
    requires NodesAreBlocks(blocks, fl) && y !in blocks
    ensures y !in fl
  {
  }

  /** A list pushed onto another contains the other's nodes. */
  lemma TailNodes(blocks: map<int, Block>, x: int, fl: seq<int>)
    requires NodesAreBlocks(blocks, [x] + fl)
    ensures NodesAreBlocks(blocks, fl)
  {
    forall i | 0 <= i < |fl|
      ensures fl[i] in blocks
    {
      assert fl[i] == ([x] + fl)[i + 1];
    }
  }

  /** A block's payload address is positive and 16-aligned. */
  lemma BlockAddress(pages: map<int, int>, blocks: map<int, Block>, x: int)
    requires PagesOk(pages) && BlocksOk(pages, blocks) && x in blocks
    ensures x > 0 && x % 16 == 0 && blocks[x].size > 0
  {
    assert InPage(pages, x, blocks[x]) && Shaped(x, blocks[x]);
  }

  /** remove_list_node on list node k keeps the boundary tags and leaves the other nodes linked, in order. */
  lemma UnlinkStep(m: map<int, int>, pages: map<int, int>, blocks: map<int, Block>, head: int, fl: seq<int>, k: nat)
    requires Core(m, pages, blocks) && ListOk(m, head, fl) && NodesAreBlocks(blocks, fl) && k < |fl|
    ensures Core(Unlinked(m, fl[k]), pages, blocks)
    ensures ListOk(Unlinked(m, fl[k]), HeadAfterUnlink(m, head, fl[k]), Without(fl, k))
    ensures NodesAreBlocks(blocks, Without(fl, k)) && fl[k] !in Without(fl, k)
  {
    UnlinkCore(m, pages, blocks, head, fl, k);
    ListRemove(m, head, fl, k);
    if fl[k] in Without(fl, k) {
      FromWithout(fl, k, fl[k]);
    }
  }

  /** A list whose nodes are blocks of a map keeps that property in a map with more blocks. */
  lemma NodesGrow(blocks: map<int, Block>, nb: map<int, Block>, fl: seq<int>)
    requires NodesAreBlocks(blocks, fl) && blocks.Keys <= nb.Keys
    ensures NodesAreBlocks(nb, fl)
  {
  }

  /** set_allocated with a split: list node b becomes an allocated block of `size`, and the free rest, at c, is pushed onto the list. */
  lemma AllocateSplit(m: map<int, int>, head: int, pages: map<int, int>, blocks: map<int, Block>, fl: seq<int>, k: nat, b: int, size: nat, c: int)
    requires HeapOk(m, head, pages, blocks, fl) && k < |fl| && fl[k] == b && b in blocks
    requires size >= 32 && size % 16 == 0 && blocks[b].size - size > 32 && c == b + size
    ensures HeapOk(Pushed(SplitWrites(Unlinked(m, b), b, blocks[b].size, size), HeadAfterUnlink(m, head, b), c),
                   c, pages, SplitMap(blocks, b, Front(blocks[b], size), Rest(blocks[b], size)), [c] + Without(fl, k))
  {
    ListedNodes(blocks, fl, {});
    SplitShape(blocks, b, size);
    ListedSplit(blocks, fl, k, Front(blocks[b], size), Rest(blocks[b], size), c);
    AllocateSplitTags(m, head, pages, blocks, fl, k, b, size, c);
  }

  /** The boundary-tag and list-link half of AllocateSplit. */
  lemma AllocateSplitTags(m: map<int, int>, head: int, pages: map<int, int>, blocks: map<int, Block>, fl: seq<int>, k: nat, b: int, size: nat, c: int)
    requires Core(m, pages, blocks) && ListOk(m, head, fl) && NodesAreBlocks(blocks, fl) && k < |fl| && fl[k] == b
    requires size >= 32 && size % 16 == 0 && blocks[b].size - size > 32 && c == b + size
    ensures Core(Pushed(SplitWrites(Unlinked(m, b), b, blocks[b].size, size), HeadAfterUnlink(m, head, b), c),
                 pages, SplitMap(blocks, b, Front(blocks[b], size), Rest(blocks[b], size)))
    ensures ListOk(Pushed(SplitWrites(Unlinked(m, b), b, blocks[b].size, size), HeadAfterUnlink(m, head, b), c), c, [c] + Without(fl, k))
  {
    UnlinkStep(m, pages, blocks, head, fl, k);
    SplitPoint(blocks, Without(fl, k), b, size, c);
    SplitStep(Unlinked(m, b), pages, blocks, HeadAfterUnlink(m, head, b), Without(fl, k), b, size);
    NodesGrow(blocks, SplitMap(blocks, b, Front(blocks[b], size), Rest(blocks[b], size)), Without(fl, k));
    PushCore(SplitWrites(Unlinked(m, b), b, blocks[b].size, size), pages,
             SplitMap(blocks, b, Front(blocks[b], size), Rest(blocks[b], size)),
             HeadAfterUnlink(m, head, b), Without(fl, k), c);
    ListPush(SplitWrites(Unlinked(m, b), b, blocks[b].size, size), HeadAfterUnlink(m, head, b), Without(fl, k), c);
  }

  /** set_allocated without a split: all of list node b is allocated and b leaves the list. */
  lemma AllocateWhole(m: map<int, int>, head: int, pages: map<int, int>, blocks: map<int, Block>, fl: seq<int>, k: nat, b: int)
    requires HeapOk(m, head, pages, blocks, fl) && k < |fl| && fl[k] == b && b in blocks
    ensures HeapOk(RetagWrites(Unlinked(m, b), b, blocks[b].size, true), HeadAfterUnlink(m, head, b),
                   pages, RetagMap(blocks, b, true), Without(fl, k))
  {
    ListedNodes(blocks, fl, {});
    UnlinkStep(m, pages, blocks, head, fl, k);
    RetagStep(Unlinked(m, b), pages, blocks, HeadAfterUnlink(m, head, b), Without(fl, k), b, true);
    ListedTake(blocks, fl, k);
  }

  /** extend: a fresh page with one free block, pushed onto the list. */
  lemma ExtendStep(m: map<int, int>, head: int, pages: map<int, int>, blocks: map<int, Block>, fl: seq<int>, base: int, size: int)
    requires HeapOk(m, head, pages, blocks, fl)
    requires Fresh(pages, base, size) && size % 16 == 0 && size >= 64
    ensures HeapOk(Pushed(PageWrites(m, base, size), head, base + 32), base + 32,
                   pages[base := size], AddPageMap(blocks, base, size), [base + 32] + fl)
  {
    ListedNodes(blocks, fl, {});
    PageStep(m, pages, blocks, head, fl, base, size);
    FreshBlock(pages, blocks, base, size);
    Unlisted(blocks, fl, base + 32);
    ListedAddPage(blocks, fl, base, size);
    PushCore(PageWrites(m, base, size), pages[base := size], AddPageMap(blocks, base, size), head, fl, base + 32);
    AlignedSum(base, 32);
    ListPush(PageWrites(m, base, size), head, fl, base + 32);
  }

  /** mm_free's first two writes: block x is free and awaits coalescing. */
  lemma ReleaseStep(m: map<int, int>, head: int, pages: map<int, int>, blocks: map<int, Block>, fl: seq<int>, x: int)
    requires HeapOk(m, head, pages, blocks, fl) && x in blocks && blocks[x].isAllocated
    ensures Freed(RetagWrites(m, x, blocks[x].size, false), head, pages, RetagMap(blocks, x, false), fl, x)
  {
    ListedNodes(blocks, fl, {});
    RetagStep(m, pages, blocks, head, fl, x, false);
    ListedRelease(blocks, fl, x);
  }

  /** coalesce, both neighbours allocated: x is pushed onto the list as it is. */
  lemma CoalesceAlone(m: map<int, int>, head: int, pages: map<int, int>, blocks: map<int, Block>, fl: seq<int>, x: int)
    requires Freed(m, head, pages, blocks, fl, x) && NoFreeBefore(blocks, x) && AllocatedAfter(blocks, x)
    ensures HeapOk(Pushed(m, head, x), x, pages, blocks, [x] + fl)
  {
    ListedNodes(blocks, fl, {x});
    SkipUnlisted(blocks, fl, x);
    ListedAlone(blocks, fl, x);
    PushCore(m, pages, blocks, head, fl, x);
    BlockAddress(pages, blocks, x);
    ListPush(m, head, fl, x);
  }

  /** coalesce, free block before: it absorbs x and keeps its place in the list. */
  lemma CoalescePrev(m: map<int, int>, head: int, pages: map<int, int>, blocks: map<int, Block>, fl: seq<int>, x: int, p: int)
    requires Freed(m, head, pages, blocks, fl, x) && HasNext(blocks, p) && p + blocks[p].size == x
    requires !blocks[p].isAllocated && AllocatedAfter(blocks, x)
    ensures HeapOk(MergeWrites(m, p, MergeMap(blocks, p)[p].size), head, pages, MergeMap(blocks, p), fl)
  {
    ListedNodes(blocks, fl, {x});
    SkipUnlisted(blocks, fl, x);
    MergeStep(m, pages, blocks, head, fl, p, x);
    ListedMergePrev(blocks, fl, p, x);
  }

  /** coalesce, free block n after: x absorbs it, n leaves the list and x is pushed. */
  lemma CoalesceNext(m: map<int, int>, head: int, pages: map<int, int>, blocks: map<int, Block>, fl: seq<int>, x: int, k: nat, n: int)
    requires Freed(m, head, pages, blocks, fl, x) && HasNext(blocks, x) && NoFreeBefore(blocks, x)
    requires k < |fl| && fl[k] == n && x + blocks[x].size == n
    ensures HeapOk(Pushed(MergeWrites(Unlinked(m, n), x, MergeMap(blocks, x)[x].size), HeadAfterUnlink(m, head, n), x),
                   x, pages, MergeMap(blocks, x), [x] + Without(fl, k))
  {
    ListedNodes(blocks, fl, {x});
    UnlinkStep(m, pages, blocks, head, fl, k);
    MergeStep(Unlinked(m, n), pages, blocks, HeadAfterUnlink(m, head, n), Without(fl, k), x, n);
    ListedMergeNext(blocks, fl, x, k);
    ListedNodes(MergeMap(blocks, x), [x] + Without(fl, k), {});
    TailNodes(MergeMap(blocks, x), x, Without(fl, k));
    PushCore(MergeWrites(Unlinked(m, n), x, MergeMap(blocks, x)[x].size), pages, MergeMap(blocks, x),
             HeadAfterUnlink(m, head, n), Without(fl, k), x);
    BlockAddress(pages, blocks, x);
    if x in Without(fl, k) {
      FromWithout(fl, k, x);
    }
    ListPush(MergeWrites(Unlinked(m, n), x, MergeMap(blocks, x)[x].size), HeadAfterUnlink(m, head, n), Without(fl, k), x);
  }

  /** coalesce, both neighbours free: p before x absorbs x and n after it; n leaves the list. */
  lemma CoalesceBoth(m: map<int, int>, head: int, pages: map<int, int>, blocks: map<int, Block>, fl: seq<int>, x: int, p: int, k: nat, n: int)
    requires Freed(m, head, pages, blocks, fl, x) && HasNext(blocks, p) && p + blocks[p].size == x
    requires HasNext(MergeMap(blocks, p), p) && !blocks[p].isAllocated
    requires k < |fl| && fl[k] == n && p + MergeMap(blocks, p)[p].size == n
    ensures HeapOk(MergeWrites(Unlinked(m, n), p, MergeMap(MergeMap(blocks, p), p)[p].size), HeadAfterUnlink(m, head, n),
                   pages, MergeMap(MergeMap(blocks, p), p), Without(fl, k))
  {
    ListedNodes(blocks, fl, {x});
    UnlinkStep(m, pages, blocks, head, fl, k);
    MergeBothStep(Unlinked(m, n), pages, blocks, HeadAfterUnlink(m, head, n), Without(fl, k), p, n);
    MergeBothListed(blocks, fl, p, x, k);
    MergeBothAdjacent(blocks, p, x);
  }

  /** mm_free's release of a page: the block that fills it leaves the list, and the page and the block leave the heap. */
  lemma UnmapStep(m: map<int, int>, head: int, pages: map<int, int>, blocks: map<int, Block>, fl: seq<int>, k: nat)
    requires HeapOk(m, head, pages, blocks, fl) && k < |fl| && FillsPage(pages, blocks, fl[k])
    ensures HeapOk(Unlinked(m, fl[k]), HeadAfterUnlink(m, head, fl[k]), pages - {blocks[fl[k]].page}, blocks - {fl[k]}, Without(fl, k))
  {
    ListedNodes(blocks, fl, {});
    UnlinkStep(m, pages, blocks, head, fl, k);
    RemovePageCore(Unlinked(m, fl[k]), pages, blocks, fl[k]);
    ListedRemovePage(blocks, fl, k);
  }
}
