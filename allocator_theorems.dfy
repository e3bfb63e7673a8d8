/// What the functions of Allocator/mm.c, as AllocatorEffects computes them, do
/// to a well-formed heap (AllocatorHeap.HeapOk): each keeps it, and names the
/// pages, blocks and free list that the new words encode.  The proofs rewrite
/// each effect to its closed form (AllocatorEffects) and apply the heap lemma
/// for that path (AllocatorOps).
module AllocatorTheorems {
  import opened AllocatorCodec
  import opened AllocatorHeap
  import opened AllocatorBlocks
  import opened AllocatorPages
  import opened AllocatorList
  import opened AllocatorListed
  import opened AllocatorSteps
  import opened AllocatorReads
  import opened AllocatorOps
  import opened AllocatorEffects

  /** A block's header gives its size. */
  lemma BlockSize(m: map<int, int>, pages: map<int, int>, blocks: map<int, Block>, x: int)
    requires Core(m, pages, blocks) && x in blocks
    ensures GetSize(Get(m, x - 8)) == blocks[x].size && blocks[x].size % 16 == 0
  {
    SizedOf(pages, blocks);
    HeaderRead(m, blocks, x);
  }

  // ---------------------------------------------------------------------------
  // mm_init
  // ---------------------------------------------------------------------------

  /** mm_init leaves a well-formed heap exactly when no block is free: the free blocks are forgotten, not released. */
  lemma InitOk(m: map<int, int>, head: int, pages: map<int, int>, blocks: map<int, Block>, fl: seq<int>)
    requires HeapOk(m, head, pages, blocks, fl)
    ensures HeapOk(m, 0, pages, blocks, []) <==> forall bp :: bp in blocks ==> blocks[bp].isAllocated
  {
    if forall bp :: bp in blocks ==> blocks[bp].isAllocated {
      forall bp
        ensures !FreePair(blocks, {}, bp)
      {
      }
    }
  }

  // ---------------------------------------------------------------------------
  // first_fit
  // ---------------------------------------------------------------------------

  /** The index of the first list node whose block holds at least `s` bytes; |fl| when there is none. */
  function FirstFitIndex(blocks: map<int, Block>, fl: seq<int>, s: nat): (r: nat)
    requires NodesAreBlocks(blocks, fl)
    ensures r <= |fl|
    ensures r < |fl| ==> blocks[fl[r]].size >= s
    ensures forall j :: 0 <= j < r ==> blocks[fl[j]].size < s
  {
    if fl == [] then 0
    else if blocks[fl[0]].size >= s then 0
    else
      var r := 1 + FirstFitIndex(blocks, fl[1..], s);
      assert forall j :: 1 <= j < r ==> fl[j] == fl[1..][j - 1];
      r
  }

  /** Nodes whose headers give their blocks' sizes. */
  ghost predicate HeadersGiveSizes(m: map<int, int>, blocks: map<int, Block>, fl: seq<int>)
  {
    forall i :: 0 <= i < |fl| ==> fl[i] in blocks && GetSize(Get(m, fl[i] - 8)) == blocks[fl[i]].size
  }

  /** Walking the list by the words finds the node FirstFitIndex names. */
  lemma {:induction false} FirstFitByHeaders(m: map<int, int>, blocks: map<int, Block>, fl: seq<int>, s: nat)
    requires HeadersGiveSizes(m, blocks, fl)
    ensures FirstFitIn(m, fl, s) == (if FirstFitIndex(blocks, fl, s) < |fl| then fl[FirstFitIndex(blocks, fl, s)] else 0)
    decreases |fl|
  {
    if fl != [] && blocks[fl[0]].size < s {
      assert HeadersGiveSizes(m, blocks, fl[1..]) by {
        forall i | 0 <= i < |fl[1..]|
          ensures fl[1..][i] in blocks && GetSize(Get(m, fl[1..][i] - 8)) == blocks[fl[1..][i]].size
        {
          assert fl[1..][i] == fl[i + 1];
        }
      }
      FirstFitByHeaders(m, blocks, fl[1..], s);
    }
  }

  /** first_fit on a well-formed heap returns the first list node whose block holds at least `s` bytes, or NULL when
    * no free block does. */
  lemma FirstFitOk(m: map<int, int>, head: int, pages: map<int, int>, blocks: map<int, Block>, fl: seq<int>, s: nat)
    requires HeapOk(m, head, pages, blocks, fl)
    ensures FirstFitIn(m, fl, s) == (if FirstFitIndex(blocks, fl, s) < |fl| then fl[FirstFitIndex(blocks, fl, s)] else 0)
    ensures FirstFitIn(m, fl, s) == 0 <==> forall bp :: bp in blocks && !blocks[bp].isAllocated ==> blocks[bp].size < s
  {
    SizedOf(pages, blocks);
    forall i | 0 <= i < |fl|
      ensures fl[i] in blocks && GetSize(Get(m, fl[i] - 8)) == blocks[fl[i]].size
    {
      HeaderRead(m, blocks, fl[i]);
    }
    FirstFitByHeaders(m, blocks, fl, s);
    var r := FirstFitIndex(blocks, fl, s);
    if r == |fl| {
      forall bp | bp in blocks && !blocks[bp].isAllocated
        ensures blocks[bp].size < s
      {
        var j := IndexOf(fl, bp);
      }
    } else {
      assert fl[r] != 0;
    }
  }

  // ---------------------------------------------------------------------------
  // set_allocated
  // ---------------------------------------------------------------------------

  /** The blocks after set_allocated(b, size): b cut to `size` with a free rest when more than PAGE_OVERHEAD bytes
    * are left, else all of b; b is allocated and every other block is kept. */
  function AllocatedBlocks(blocks: map<int, Block>, b: int, size: nat): (r: map<int, Block>)
    requires b in blocks && 0 < size <= blocks[b].size
    ensures b in r && r[b].isAllocated && size <= r[b].size <= size + PAGE_OVERHEAD && r[b].page == blocks[b].page
    ensures forall q :: q in blocks && q != b && q != b + size ==> q in r && r[q] == blocks[q]
    ensures blocks[b].size - size > PAGE_OVERHEAD ==>
      r[b].size == size && r.Keys == blocks.Keys + {b + size} && r[b + size] == Block(blocks[b].size - size, false, blocks[b].page)
    ensures blocks[b].size - size <= PAGE_OVERHEAD ==> r[b].size == blocks[b].size && r.Keys == blocks.Keys
  {
    if blocks[b].size - size > PAGE_OVERHEAD then SplitMap(blocks, b, Front(blocks[b], size), Rest(blocks[b], size))
    else RetagMap(blocks, b, true)
  }

  /** The free list after set_allocated(b, size): b leaves it, and a free rest is pushed onto it. */
  function AllocatedList(blocks: map<int, Block>, fl: seq<int>, b: int, size: nat): (r: seq<int>)
    requires b in fl && b in blocks && size <= blocks[b].size
    ensures forall q :: q in fl && q != b ==> q in r
    ensures blocks[b].size - size > PAGE_OVERHEAD ==> |r| == |fl| && r[0] == b + size
    ensures blocks[b].size - size <= PAGE_OVERHEAD ==> |r| == |fl| - 1
  {
    if blocks[b].size - size > PAGE_OVERHEAD then [b + size] + Without(fl, IndexOf(fl, b))
    else Without(fl, IndexOf(fl, b))
  }

  /** When set_allocated splits b, the rest at c heads the list, which no longer holds b. */
  lemma SplitList(blocks: map<int, Block>, fl: seq<int>, b: int, size: nat, k: nat, c: int)
    requires b in fl && b in blocks && size <= blocks[b].size && blocks[b].size - size > PAGE_OVERHEAD
    requires k == IndexOf(fl, b) && c == b + size
    ensures AllocatedList(blocks, fl, b, size) == [c] + Without(fl, k)
  {
  }

  /** set_allocated on a free block that holds `size` bytes keeps the heap well formed. */
  lemma AllocateOk(m: map<int, int>, head: int, pages: map<int, int>, blocks: map<int, Block>, fl: seq<int>, b: int, size: nat)
    requires HeapOk(m, head, pages, blocks, fl) && b in fl && b in blocks
    requires size >= 32 && size % 16 == 0 && size <= blocks[b].size
    ensures var r := Allocate(State(m, head), b, size);
      HeapOk(r.mem, r.head, pages, AllocatedBlocks(blocks, b, size), AllocatedList(blocks, fl, b, size))
  {
    var k := IndexOf(fl, b);
    if blocks[b].size - size > PAGE_OVERHEAD {
      var c := b + size;
      SplitList(blocks, fl, b, size, k, c);
      AllocateSplitOk(m, head, pages, blocks, fl, k, b, size, c);
    } else {
      AllocateWholeOk(m, head, pages, blocks, fl, k, b, size);
    }
  }

  /** AllocateOk when set_allocated splits. */
  lemma AllocateSplitOk(m: map<int, int>, head: int, pages: map<int, int>, blocks: map<int, Block>, fl: seq<int>, k: nat, b: int, size: nat, c: int)
    requires HeapOk(m, head, pages, blocks, fl) && k < |fl| && fl[k] == b && b in blocks
    requires size >= 32 && size % 16 == 0 && blocks[b].size - size > PAGE_OVERHEAD && c == b + size
    ensures var r := Allocate(State(m, head), b, size);
      HeapOk(r.mem, r.head, pages, SplitMap(blocks, b, Front(blocks[b], size), Rest(blocks[b], size)), [c] + Without(fl, k))
  {
    BlockSize(m, pages, blocks, b);
    AllocateSplitForm(m, head, fl, k, size, c);
    AllocateSplit(m, head, pages, blocks, fl, k, b, size, c);
  }

  /** AllocateOk when set_allocated takes the whole block. */
  lemma AllocateWholeOk(m: map<int, int>, head: int, pages: map<int, int>, blocks: map<int, Block>, fl: seq<int>, k: nat, b: int, size: nat)
    requires HeapOk(m, head, pages, blocks, fl) && k < |fl| && fl[k] == b && b in blocks
    requires size <= blocks[b].size <= size + PAGE_OVERHEAD
    ensures var r := Allocate(State(m, head), b, size);
      HeapOk(r.mem, r.head, pages, RetagMap(blocks, b, true), Without(fl, k))
  {
    BlockSize(m, pages, blocks, b);
    AllocateWholeForm(m, head, fl, k, size);
    AllocateWhole(m, head, pages, blocks, fl, k, b);
  }

  // ---------------------------------------------------------------------------
  // extend
  // ---------------------------------------------------------------------------

  /** extend, when the page provider maps a span clear of the heap: the heap gains the page, whose one free block
    * heads the list. */
  lemma ExtendOk(m: map<int, int>, head: int, initialPage: nat, ps: nat, base: int, pages: map<int, int>, blocks: map<int, Block>, fl: seq<int>)
    requires HeapOk(m, head, pages, blocks, fl) && PowerOfTwo(ps) && ps >= ALLOC_GRANULARITY
    requires Fresh(pages, base, ExtendSize(initialPage, ps))
    ensures var e, size := Extended(State(m, head), initialPage, ps, base).0, ExtendSize(initialPage, ps);
      && HeapOk(e.mem, e.head, pages[base := size], AddPageMap(blocks, base, size), [base + 32] + fl)
      && e.head == base + 32 && size - PAGE_OVERHEAD >= initialPage
  {
    ExtendForm(m, head, initialPage, ps, base);
    ExtendStep(m, head, pages, blocks, fl, base, ExtendSize(initialPage, ps));
  }

  // ---------------------------------------------------------------------------
  // coalesce
  // ---------------------------------------------------------------------------

  /** A block followed by another block has a neighbour on its page. */
  lemma FollowedOnPage(m: map<int, int>, pages: map<int, int>, blocks: map<int, Block>, p: int)
    requires Core(m, pages, blocks) && p in blocks && p + blocks[p].size in blocks
    ensures HasNext(blocks, p) && blocks[p].size >= 32
  {
    LayoutOf(pages, blocks);
    NextSamePage(pages, blocks, p);
  }

  /** `nb` is what coalesce made of `blocks` around the freed block x: y is a free block of x's page covering x,
    * every allocated block is kept, and every block but y was a block before. */
  ghost predicate CoalescedFrom(blocks: map<int, Block>, nb: map<int, Block>, x: int, y: int)
    requires x in blocks
  {
    && y in nb && !nb[y].isAllocated && y <= x && x + blocks[x].size <= y + nb[y].size
    && nb[y].page == blocks[x].page
    && (forall q :: q in blocks && blocks[q].isAllocated ==> q in nb && nb[q] == blocks[q])
    && (forall q :: q in nb && q != y ==> q in blocks && nb[q] == blocks[q])
  }

  /** coalesce when both neighbours are allocated. */
  lemma CoalesceAloneOk(m: map<int, int>, head: int, pages: map<int, int>, blocks: map<int, Block>, fl: seq<int>, x: int)
    requires Freed(m, head, pages, blocks, fl, x)
    requires GetAlloc(Get(m, PrevBlkp(m, x) - 8)) != 0 && GetAlloc(Get(m, NextBlkp(m, x) - 8)) != 0
    ensures Coalesced(State(m, head), x) == (State(Pushed(m, head, x), x), x)
    ensures HeapOk(Pushed(m, head, x), x, pages, blocks, [x] + fl) && CoalescedFrom(blocks, blocks, x, x)
  {
    PrevRead(m, pages, blocks, x);
    NextRead(m, pages, blocks, x);
    CoalesceAlone(m, head, pages, blocks, fl, x);
  }

  /** What coalesce reads when the block p before x is free: p ends at x, shares its page, and both headers give the
    * blocks' sizes. */
  lemma PrevShape(m: map<int, int>, pages: map<int, int>, blocks: map<int, Block>, x: int, p: int)
    requires Core(m, pages, blocks) && x in blocks && p == PrevBlkp(m, x) && GetAlloc(Get(m, p - 8)) == 0
    ensures FreeBefore(blocks, x, p) && HasNext(blocks, p)
    ensures GetSize(Get(m, p - 8)) == blocks[p].size && GetSize(Get(m, x - 8)) == blocks[x].size
    ensures blocks[p].size >= 32 && blocks[x].size >= 32 && (blocks[p].size + blocks[x].size) % 16 == 0
    ensures blocks[p].size % 16 == 0 && blocks[x].size % 16 == 0
  {
    PrevRead(m, pages, blocks, x);
    FollowedOnPage(m, pages, blocks, p);
    BlockSize(m, pages, blocks, x);
    BlockSize(m, pages, blocks, p);
    LayoutOf(pages, blocks);
    AlignedSum(blocks[p].size, blocks[x].size);
  }

  /** What coalesce reads when the block n after x is free: n starts where x ends, shares its page, and both headers
    * give the blocks' sizes. */
  lemma NextShape(m: map<int, int>, pages: map<int, int>, blocks: map<int, Block>, x: int, n: int)
    requires Core(m, pages, blocks) && x in blocks && n == NextBlkp(m, x) && GetAlloc(Get(m, n - 8)) == 0
    ensures HasNext(blocks, x) && n == x + blocks[x].size && !blocks[n].isAllocated
    ensures GetSize(Get(m, n - 8)) == blocks[n].size && GetSize(Get(m, x - 8)) == blocks[x].size
    ensures blocks[n].size >= 32 && blocks[x].size >= 32 && (blocks[x].size + blocks[n].size) % 16 == 0
    ensures blocks[n].size % 16 == 0
  {
    NextRead(m, pages, blocks, x);
    BlockSize(m, pages, blocks, x);
    BlockSize(m, pages, blocks, n);
    LayoutOf(pages, blocks);
    AlignedSum(blocks[x].size, blocks[n].size);
  }

  /** coalesce's closed form when only the block before is free, stated with the blocks' sizes. */
  lemma PrevMerged(m: map<int, int>, head: int, blocks: map<int, Block>, x: int, p: int)
    requires FreeBefore(blocks, x, p) && HasNext(blocks, p) && x in blocks && p == PrevBlkp(m, x)
    requires GetAlloc(Get(m, p - 8)) == 0 && GetAlloc(Get(m, NextBlkp(m, x) - 8)) != 0
    requires GetSize(Get(m, p - 8)) == blocks[p].size && GetSize(Get(m, x - 8)) == blocks[x].size
    requires blocks[p].size >= 32 && blocks[x].size >= 32 && (blocks[p].size + blocks[x].size) % 16 == 0
    ensures Coalesced(State(m, head), x) == (State(MergeWrites(m, p, MergeMap(blocks, p)[p].size), head), p)
  {
    MergedSize(blocks, p, x);
    CoalescePrevForm(m, head, x, p, MergeMap(blocks, p)[p].size);
  }

  /** coalesce's closed form when only the block n after is free, stated with the blocks' sizes. */
  lemma NextMerged(m: map<int, int>, head: int, blocks: map<int, Block>, fl: seq<int>, k: nat, x: int, n: int)
    requires ListOk(m, head, fl) && k < |fl| && fl[k] == n
    requires HasNext(blocks, x) && n == x + blocks[x].size && n == NextBlkp(m, x)
    requires GetAlloc(Get(m, PrevBlkp(m, x) - 8)) != 0 && GetAlloc(Get(m, n - 8)) == 0
    requires GetSize(Get(m, n - 8)) == blocks[n].size && GetSize(Get(m, x - 8)) == blocks[x].size
    requires (blocks[x].size + blocks[n].size) % 16 == 0
    ensures Coalesced(State(m, head), x)
      == (State(Pushed(MergeWrites(Unlinked(m, n), x, MergeMap(blocks, x)[x].size), HeadAfterUnlink(m, head, n), x), x), x)
  {
    MergedSize(blocks, x, n);
    CoalesceNextForm(m, head, fl, k, x, n, MergeMap(blocks, x)[x].size);
  }

  /** A free block that absorbs the free block after it covers it, on the same page, and keeps every allocated
    * block. */
  lemma MergedFrom(blocks: map<int, Block>, y: int, x: int)
    requires HasNext(blocks, y) && x in blocks && (x == y || x == y + blocks[y].size)
    requires !blocks[y].isAllocated && !blocks[y + blocks[y].size].isAllocated
    ensures CoalescedFrom(blocks, MergeMap(blocks, y), x, y)
  {
    MergedSize(blocks, y, y + blocks[y].size);
  }

  /** coalesce when only the block before is free. */
  lemma CoalescePrevOk(m: map<int, int>, head: int, pages: map<int, int>, blocks: map<int, Block>, fl: seq<int>, x: int, p: int)
    requires Freed(m, head, pages, blocks, fl, x) && p == PrevBlkp(m, x)
    requires GetAlloc(Get(m, p - 8)) == 0 && GetAlloc(Get(m, NextBlkp(m, x) - 8)) != 0
    ensures HasNext(blocks, p) && p + blocks[p].size == x
    ensures var nb := MergeMap(blocks, p);
      && Coalesced(State(m, head), x) == (State(MergeWrites(m, p, nb[p].size), head), p)
      && HeapOk(MergeWrites(m, p, nb[p].size), head, pages, nb, fl)
      && CoalescedFrom(blocks, nb, x, p)
    ensures CoalesceGood(Coalesced(State(m, head), x), pages, blocks, x)
  {
    PrevShape(m, pages, blocks, x, p);
    NextRead(m, pages, blocks, x);
    PrevMerged(m, head, blocks, x, p);
    CoalescePrev(m, head, pages, blocks, fl, x, p);
    MergedFrom(blocks, p, x);
    var nb := MergeMap(blocks, p);
    CoalesceGoodBy((State(MergeWrites(m, p, nb[p].size), head), p), pages, blocks, x, nb, fl);
  }

  /** coalesce when only the block after is free. */
  lemma CoalesceNextOk(m: map<int, int>, head: int, pages: map<int, int>, blocks: map<int, Block>, fl: seq<int>, x: int, n: int)
    requires Freed(m, head, pages, blocks, fl, x) && n == NextBlkp(m, x)
    requires GetAlloc(Get(m, PrevBlkp(m, x) - 8)) != 0 && GetAlloc(Get(m, n - 8)) == 0
    ensures HasNext(blocks, x) && n == x + blocks[x].size && n in fl
    ensures var nb, k := MergeMap(blocks, x), IndexOf(fl, n);
      && Coalesced(State(m, head), x)
        == (State(Pushed(MergeWrites(Unlinked(m, n), x, nb[x].size), HeadAfterUnlink(m, head, n), x), x), x)
      && HeapOk(Pushed(MergeWrites(Unlinked(m, n), x, nb[x].size), HeadAfterUnlink(m, head, n), x),
                x, pages, nb, [x] + Without(fl, k))
      && CoalescedFrom(blocks, nb, x, x)
    ensures CoalesceGood(Coalesced(State(m, head), x), pages, blocks, x)
  {
    NextShape(m, pages, blocks, x, n);
    PrevRead(m, pages, blocks, x);
    assert n in fl;
    var k := IndexOf(fl, n);
    NextMerged(m, head, blocks, fl, k, x, n);
    CoalesceNext(m, head, pages, blocks, fl, x, k, n);
    MergedFrom(blocks, x, x);
    var nb := MergeMap(blocks, x);
    CoalesceGoodBy((State(Pushed(MergeWrites(Unlinked(m, n), x, nb[x].size), HeadAfterUnlink(m, head, n), x), x), x),
                   pages, blocks, x, nb, [x] + Without(fl, k));
  }

  /** Unlinking the free block n changes only list links: the tags coalesce reads next (x's header, the footer of p
    * before x, n's header) are the same before and after. */
  lemma UnlinkKeepsTags(m: map<int, int>, pages: map<int, int>, blocks: map<int, Block>, head: int, fl: seq<int>,
                        k: nat, x: int, p: int)
    requires Core(m, pages, blocks) && ListOk(m, head, fl) && NodesAreBlocks(blocks, fl) && k < |fl|
    requires x in blocks && p in blocks && p + blocks[p].size == x
    ensures var u, n := Unlinked(m, fl[k]), fl[k];
      Get(u, x - 16) == Get(m, x - 16) && Get(u, x - 8) == Get(m, x - 8) && Get(u, n - 8) == Get(m, n - 8)
  {
    UnlinkStep(m, pages, blocks, head, fl, k);
  }

  /** coalesce's closed form when both neighbours are free, stated with the blocks' sizes. */
  lemma BothMerged(m: map<int, int>, head: int, blocks: map<int, Block>, fl: seq<int>, k: nat, x: int, p: int, n: int)
    requires ListOk(m, head, fl) && k < |fl| && fl[k] == n
    requires FreeBefore(blocks, x, p) && HasNext(blocks, p) && HasNext(blocks, x) && n == x + blocks[x].size
    requires p == PrevBlkp(m, x) && n == NextBlkp(m, x)
    requires GetAlloc(Get(m, p - 8)) == 0 && GetAlloc(Get(m, n - 8)) == 0
    requires GetSize(Get(m, p - 8)) == blocks[p].size && GetSize(Get(m, x - 8)) == blocks[x].size
    requires GetSize(Get(m, n - 8)) == blocks[n].size
    requires blocks[p].size >= 32 && blocks[x].size >= 32 && blocks[n].size >= 32
    requires blocks[p].size % 16 == 0 && blocks[x].size % 16 == 0 && blocks[n].size % 16 == 0
    requires var u := Unlinked(m, n);
      Get(u, x - 16) == Get(m, x - 16) && Get(u, x - 8) == Get(m, x - 8) && Get(u, n - 8) == Get(m, n - 8)
    ensures HasNext(MergeMap(blocks, p), p) && p + MergeMap(blocks, p)[p].size == n
    ensures var total := MergeMap(MergeMap(blocks, p), p)[p].size;
      && total == blocks[p].size + blocks[x].size + blocks[n].size
      && Coalesced(State(m, head), x) == (State(MergeWrites(Unlinked(m, n), p, total), HeadAfterUnlink(m, head, n)), p)
  {
    MergedSize(blocks, p, x);
    var mb := MergeMap(blocks, p);
    assert mb[n] == blocks[n];
    MergedSize(mb, p, n);
    var total := MergeMap(mb, p)[p].size;
    AlignedSum(blocks[p].size, blocks[x].size);
    AlignedSum(blocks[p].size + blocks[x].size, blocks[n].size);
    CoalesceBothForm(m, head, fl, k, x, p, n, total);
  }

  /** What coalesce reads when both neighbours of x are free, and the closed form it then computes. */
  lemma BothShape(m: map<int, int>, head: int, pages: map<int, int>, blocks: map<int, Block>, fl: seq<int>, k: nat,
                  x: int, p: int, n: int)
    requires Core(m, pages, blocks) && ListOk(m, head, fl) && NodesAreBlocks(blocks, fl) && k < |fl| && fl[k] == n
    requires x in blocks && p == PrevBlkp(m, x) && n == NextBlkp(m, x)
    requires GetAlloc(Get(m, p - 8)) == 0 && GetAlloc(Get(m, n - 8)) == 0
    ensures FreeBefore(blocks, x, p) && HasNext(blocks, p) && HasNext(blocks, x) && n == x + blocks[x].size
    ensures !blocks[n].isAllocated
    ensures HasNext(MergeMap(blocks, p), p) && p + MergeMap(blocks, p)[p].size == n
    ensures Coalesced(State(m, head), x)
      == (State(MergeWrites(Unlinked(m, n), p, MergeMap(MergeMap(blocks, p), p)[p].size), HeadAfterUnlink(m, head, n)), p)
  {
    PrevShape(m, pages, blocks, x, p);
    NextShape(m, pages, blocks, x, n);
    UnlinkKeepsTags(m, pages, blocks, head, fl, k, x, p);
    BothMerged(m, head, blocks, fl, k, x, p, n);
  }

  /** A free block p that absorbs the free blocks x and n after it covers x, on the same page, and keeps every
    * allocated block. */
  lemma MergedFrom3(blocks: map<int, Block>, p: int, x: int)
    requires HasNext(blocks, p) && p + blocks[p].size == x && HasNext(MergeMap(blocks, p), p)
    requires !blocks[p].isAllocated && !blocks[x].isAllocated && !blocks[p + MergeMap(blocks, p)[p].size].isAllocated
    ensures CoalescedFrom(blocks, MergeMap(MergeMap(blocks, p), p), x, p)
  {
    MergedSize(blocks, p, x);
    MergedSize(MergeMap(blocks, p), p, p + MergeMap(blocks, p)[p].size);
  }

  /** coalesce when both neighbours are free. */
  lemma CoalesceBothOk(m: map<int, int>, head: int, pages: map<int, int>, blocks: map<int, Block>, fl: seq<int>,
                       x: int, p: int, n: int)
    requires Freed(m, head, pages, blocks, fl, x) && p == PrevBlkp(m, x) && n == NextBlkp(m, x)
    requires GetAlloc(Get(m, p - 8)) == 0 && GetAlloc(Get(m, n - 8)) == 0
    ensures HasNext(blocks, p) && p + blocks[p].size == x && HasNext(MergeMap(blocks, p), p) && n in fl
    ensures var nb, k := MergeMap(MergeMap(blocks, p), p), IndexOf(fl, n);
      && Coalesced(State(m, head), x) == (State(MergeWrites(Unlinked(m, n), p, nb[p].size), HeadAfterUnlink(m, head, n)), p)
      && HeapOk(MergeWrites(Unlinked(m, n), p, nb[p].size), HeadAfterUnlink(m, head, n), pages, nb, Without(fl, k))
      && CoalescedFrom(blocks, nb, x, p)
    ensures CoalesceGood(Coalesced(State(m, head), x), pages, blocks, x)
  {
    NextShape(m, pages, blocks, x, n);
    assert n in fl;
    var k := IndexOf(fl, n);
    ListedNodes(blocks, fl, {x});
    BothShape(m, head, pages, blocks, fl, k, x, p, n);
    CoalesceBoth(m, head, pages, blocks, fl, x, p, k, n);
    MergedFrom3(blocks, p, x);
    var nb := MergeMap(MergeMap(blocks, p), p);
    CoalesceGoodBy((State(MergeWrites(Unlinked(m, n), p, nb[p].size), HeadAfterUnlink(m, head, n)), p),
                   pages, blocks, x, nb, Without(fl, k));
  }

  /** coalesce's result is a well-formed heap in which a free block of x's page covers x and every other block is as
    * it was. */
  ghost predicate CoalesceGood(c: (State, int), pages: map<int, int>, blocks: map<int, Block>, x: int)
    requires x in blocks
  {
    exists nb, nfl :: HeapOk(c.0.mem, c.0.head, pages, nb, nfl) && CoalescedFrom(blocks, nb, x, c.1)
  }

  /** CoalesceGood, from its witnesses. */
  lemma CoalesceGoodBy(c: (State, int), pages: map<int, int>, blocks: map<int, Block>, x: int, nb: map<int, Block>, nfl: seq<int>)
    requires x in blocks && HeapOk(c.0.mem, c.0.head, pages, nb, nfl) && CoalescedFrom(blocks, nb, x, c.1)
    ensures CoalesceGood(c, pages, blocks, x)
  {
  }

  /** CoalesceOk when only the block before is free. */
  lemma PrevGood(m: map<int, int>, head: int, pages: map<int, int>, blocks: map<int, Block>, fl: seq<int>, x: int)
    requires Freed(m, head, pages, blocks, fl, x)
    requires GetAlloc(Get(m, PrevBlkp(m, x) - 8)) == 0 && GetAlloc(Get(m, NextBlkp(m, x) - 8)) != 0
    ensures CoalesceGood(Coalesced(State(m, head), x), pages, blocks, x)
  {
    CoalescePrevOk(m, head, pages, blocks, fl, x, PrevBlkp(m, x));
  }

  /** CoalesceOk when only the block after is free. */
  lemma NextGood(m: map<int, int>, head: int, pages: map<int, int>, blocks: map<int, Block>, fl: seq<int>, x: int)
    requires Freed(m, head, pages, blocks, fl, x)
    requires GetAlloc(Get(m, PrevBlkp(m, x) - 8)) != 0 && GetAlloc(Get(m, NextBlkp(m, x) - 8)) == 0
    ensures CoalesceGood(Coalesced(State(m, head), x), pages, blocks, x)
  {
    CoalesceNextOk(m, head, pages, blocks, fl, x, NextBlkp(m, x));
  }

  /** CoalesceOk when both neighbours are allocated. */
  lemma AloneGood(m: map<int, int>, head: int, pages: map<int, int>, blocks: map<int, Block>, fl: seq<int>, x: int)
    requires Freed(m, head, pages, blocks, fl, x)
    requires GetAlloc(Get(m, PrevBlkp(m, x) - 8)) != 0 && GetAlloc(Get(m, NextBlkp(m, x) - 8)) != 0
    ensures CoalesceGood(Coalesced(State(m, head), x), pages, blocks, x)
  {
    CoalesceAloneOk(m, head, pages, blocks, fl, x);
    CoalesceGoodBy((State(Pushed(m, head, x), x), x), pages, blocks, x, blocks, [x] + fl);
  }

  /** CoalesceOk when both neighbours are free. */
  lemma BothGood(m: map<int, int>, head: int, pages: map<int, int>, blocks: map<int, Block>, fl: seq<int>, x: int)
    requires Freed(m, head, pages, blocks, fl, x)
    requires GetAlloc(Get(m, PrevBlkp(m, x) - 8)) == 0 && GetAlloc(Get(m, NextBlkp(m, x) - 8)) == 0
    ensures CoalesceGood(Coalesced(State(m, head), x), pages, blocks, x)
  {
    CoalesceBothOk(m, head, pages, blocks, fl, x, PrevBlkp(m, x), NextBlkp(m, x));
  }

  /** coalesce on a heap awaiting it leaves a well-formed heap in which a free block of x's page covers x and every
    * other block is as it was. */
  lemma CoalesceOk(m: map<int, int>, head: int, pages: map<int, int>, blocks: map<int, Block>, fl: seq<int>, x: int)
    requires Freed(m, head, pages, blocks, fl, x)
    ensures CoalesceGood(Coalesced(State(m, head), x), pages, blocks, x)
  {
    var prevFree, nextFree := GetAlloc(Get(m, PrevBlkp(m, x) - 8)) == 0, GetAlloc(Get(m, NextBlkp(m, x) - 8)) == 0;
    if prevFree && !nextFree {
      PrevGood(m, head, pages, blocks, fl, x);
    } else if !prevFree && nextFree {
      NextGood(m, head, pages, blocks, fl, x);
    } else if !prevFree && !nextFree {
      AloneGood(m, head, pages, blocks, fl, x);
    } else {
      BothGood(m, head, pages, blocks, fl, x);
    }
  }

  /** mm_free's release of a page: when the free block y fills its page, unlinking it leaves a well-formed heap
    * without that page and block, and the length passed to mem_unmap, read from y's header, is the page's. */
  lemma UnmapOk(m: map<int, int>, head: int, pages: map<int, int>, blocks: map<int, Block>, fl: seq<int>, y: int)
    requires HeapOk(m, head, pages, blocks, fl) && y in blocks && !blocks[y].isAllocated && FillsPage(pages, blocks, y)
    ensures y in fl && blocks[y].page == y - PAGE_OVERHEAD && y - PAGE_OVERHEAD in pages
    ensures RemoveNode(State(m, head), y) == State(Unlinked(m, y), HeadAfterUnlink(m, head, y))
    ensures pages[y - PAGE_OVERHEAD] == GetSize(Get(Unlinked(m, y), Hdrp(y))) + PAGE_OVERHEAD
    ensures HeapOk(Unlinked(m, y), HeadAfterUnlink(m, head, y), pages - {y - PAGE_OVERHEAD}, blocks - {y},
                   Without(fl, IndexOf(fl, y)))
  {
    assert y in fl;
    var k := IndexOf(fl, y);
    LayoutOf(pages, blocks);
    assert InPage(pages, y, blocks[y]);
    UnmapStep(m, head, pages, blocks, fl, k);
    RemoveNodeUnlinks(m, head, fl, k);
    ListedNodes(blocks, fl, {});
    UnlinkStep(m, pages, blocks, head, fl, k);
    BlockSize(Unlinked(m, y), pages, blocks, y);
  }

  /** The end of mm_free, for a block y of the heap: exactly when y fills its page, y leaves the list and mem_unmap
    * is given y's address less PAGE_OVERHEAD and the length read from y's header plus PAGE_OVERHEAD; otherwise
    * nothing changes. */
  lemma ReleasePageOk(m: map<int, int>, head: int, pages: map<int, int>, blocks: map<int, Block>, y: int)
    requires Core(m, pages, blocks) && y in blocks
    ensures var r := RemoveNode(State(m, head), y);
      ReleasePage((State(m, head), y))
        == if FillsPage(pages, blocks, y) then (r, Some((y - PAGE_OVERHEAD, GetSize(Get(r.mem, Hdrp(y))) + PAGE_OVERHEAD)))
           else (State(m, head), None)
  {
    WholePageExact(m, pages, blocks, y);
  }

  /** What mm_free made of `blocks`: ptr is no longer an allocated block, the other allocated blocks are kept, and no
    * block became allocated. */
  ghost predicate FreedFrom(blocks: map<int, Block>, nb: map<int, Block>, ptr: int)
  {
    && (forall q :: q in blocks && blocks[q].isAllocated && q != ptr ==> q in nb && nb[q] == blocks[q])
    && (forall q :: q in nb && nb[q].isAllocated ==> q != ptr && q in blocks && nb[q] == blocks[q])
  }

  /** Coalescing the freed block ptr, and then dropping the merged free block y or not, frees ptr and keeps every
    * other allocated block. */
  lemma CoalescedFrees(blocks: map<int, Block>, nb: map<int, Block>, ptr: int, y: int)
    requires ptr in blocks && blocks[ptr].isAllocated && CoalescedFrom(RetagMap(blocks, ptr, false), nb, ptr, y)
    ensures FreedFrom(blocks, nb, ptr) && FreedFrom(blocks, nb - {y}, ptr)
  {
  }

  /** What mm_free promises of its result u, with `blocks` the blocks before the call. */
  ghost predicate FreeGood(u: (State, Option<(int, int)>), pages: map<int, int>, blocks: map<int, Block>, ptr: int)
  {
    exists np, nb, nfl :: && HeapOk(u.0.mem, u.0.head, np, nb, nfl) && FreedFrom(blocks, nb, ptr)
      && (u.1.None? ==> np == pages)
      && (u.1.Some? ==> u.1.value.0 in pages && pages[u.1.value.0] == u.1.value.1 && np == pages - {u.1.value.0})
  }

  /** The end of mm_free as Allocator/mm.c writes it, for a block y of the heap: y's page is released when y fills
    * it and also when the test misfires on y; whenever y is its page's first block or the word the test reads does not
    * have size 16, it does what ReleasePage does. */
  lemma ReleasePageAsWrittenOk(m: map<int, int>, head: int, pages: map<int, int>, blocks: map<int, Block>, y: int)
    requires Core(m, pages, blocks) && y in blocks
    ensures ReleasePageAsWritten((State(m, head), y))
      == if FillsPage(pages, blocks, y) || Misfires(m, pages, blocks, y) then Unmapped((State(m, head), y))
         else (State(m, head), None)
    ensures y == blocks[y].page + 32 || GetSize(Get(m, y - 24)) != 16 ==>
      ReleasePageAsWritten((State(m, head), y)) == ReleasePage((State(m, head), y))
  {
    WholePageAsWrittenExact(m, pages, blocks, y);
  }

  /** ReleasePageAsWrittenOk's agreement, with "y is its page's first block" read from the word before y's header. */
  lemma ReleaseAgrees(m: map<int, int>, head: int, pages: map<int, int>, blocks: map<int, Block>, fl: seq<int>, y: int)
    requires HeapOk(m, head, pages, blocks, fl) && y in blocks
    ensures GetSize(Get(m, y - 16)) == 16 || GetSize(Get(m, y - 24)) != 16 ==>
      ReleasePageAsWritten((State(m, head), y)) == ReleasePage((State(m, head), y))
  {
    PrologTest(m, pages, blocks, y);
    WholePageAsWrittenExact(m, pages, blocks, y);
  }

  /** The end of mm_free keeps what coalescing the freed block ptr gave: a well-formed heap whose block y covers
    * ptr. */
  lemma ReleasePageGood(m: map<int, int>, head: int, pages: map<int, int>, blocks: map<int, Block>, ptr: int,
                        nb: map<int, Block>, nfl: seq<int>, y: int)
    requires ptr in blocks && blocks[ptr].isAllocated
    requires HeapOk(m, head, pages, nb, nfl) && CoalescedFrom(RetagMap(blocks, ptr, false), nb, ptr, y)
    ensures FreeGood(ReleasePage((State(m, head), y)), pages, blocks, ptr)
  {
    CoalescedFrees(blocks, nb, ptr, y);
    ReleasePageOk(m, head, pages, nb, y);
    if FillsPage(pages, nb, y) {
      ReleaseUnmapGood(m, head, pages, blocks, ptr, nb, nfl, y);
    } else {
      assert ReleasePage((State(m, head), y)) == (State(m, head), None);
      FreeGoodBy(m, head, None, pages, blocks, ptr, pages, nb, nfl);
    }
  }

  /** ReleasePageGood when the coalesced block fills its page: the block is unlinked and the page unmapped. */
  lemma ReleaseUnmapGood(m: map<int, int>, head: int, pages: map<int, int>, blocks: map<int, Block>, ptr: int,
                         nb: map<int, Block>, nfl: seq<int>, y: int)
    requires HeapOk(m, head, pages, nb, nfl) && y in nb && !nb[y].isAllocated && FillsPage(pages, nb, y)
    requires FreedFrom(blocks, nb - {y}, ptr)
    ensures var unmap := Some((y - PAGE_OVERHEAD, pages[y - PAGE_OVERHEAD]));
      y - PAGE_OVERHEAD in pages && RemoveNode(State(m, head), y) == State(Unlinked(m, y), HeadAfterUnlink(m, head, y))
      && pages[y - PAGE_OVERHEAD] == GetSize(Get(Unlinked(m, y), Hdrp(y))) + PAGE_OVERHEAD
      && FreeGood((State(Unlinked(m, y), HeadAfterUnlink(m, head, y)), unmap), pages, blocks, ptr)
  {
    UnmapOk(m, head, pages, nb, nfl, y);
    FreeGoodBy(Unlinked(m, y), HeadAfterUnlink(m, head, y), Some((y - PAGE_OVERHEAD, pages[y - PAGE_OVERHEAD])),
               pages, blocks, ptr, pages - {y - PAGE_OVERHEAD}, nb - {y}, Without(nfl, IndexOf(nfl, y)));
  }

  /** ReleasePageGood, for the result of coalesce. */
  lemma ReleaseCoalesced(c: (State, int), pages: map<int, int>, blocks: map<int, Block>, ptr: int)
    requires ptr in blocks && blocks[ptr].isAllocated && CoalesceGood(c, pages, RetagMap(blocks, ptr, false), ptr)
    ensures FreeGood(ReleasePage(c), pages, blocks, ptr)
  {
    var m, head, y := c.0.mem, c.0.head, c.1;
    var nb, nfl :| HeapOk(m, head, pages, nb, nfl) && CoalescedFrom(RetagMap(blocks, ptr, false), nb, ptr, y);
    ReleasePageGood(m, head, pages, blocks, ptr, nb, nfl, y);
    assert c == (State(m, head), y);
  }

  /** FreeGood, from its witnesses. */
  lemma FreeGoodBy(m: map<int, int>, head: int, unmap: Option<(int, int)>, pages: map<int, int>, blocks: map<int, Block>,
                   ptr: int, np: map<int, int>, nb: map<int, Block>, nfl: seq<int>)
    requires HeapOk(m, head, np, nb, nfl) && FreedFrom(blocks, nb, ptr)
    requires unmap.None? ==> np == pages
    requires unmap.Some? ==> unmap.value.0 in pages && pages[unmap.value.0] == unmap.value.1 && np == pages - {unmap.value.0}
    ensures FreeGood((State(m, head), unmap), pages, blocks, ptr)
  {
  }
  /** mm_free(ptr) on an allocated block of a well-formed heap leaves a well-formed heap in which ptr is free; the
    * page is handed to mem_unmap exactly when it is wholly free, with its own base and length, and leaves the heap. */
  lemma FreeOk(m: map<int, int>, head: int, pages: map<int, int>, blocks: map<int, Block>, fl: seq<int>, ptr: int)
    requires HeapOk(m, head, pages, blocks, fl) && ptr in blocks && blocks[ptr].isAllocated
    ensures FreeGood(Released(State(m, head), ptr), pages, blocks, ptr)
  {
    var size := blocks[ptr].size;
    BlockSize(m, pages, blocks, ptr);
    ReleasedForm(m, head, ptr, size);
    ReleaseStep(m, head, pages, blocks, fl, ptr);
    CoalesceOk(RetagWrites(m, ptr, size, false), head, pages, RetagMap(blocks, ptr, false), fl, ptr);
    ReleaseCoalesced(Coalesced(State(RetagWrites(m, ptr, size, false), head), ptr), pages, blocks, ptr);
  }

  /** After coalesce, the test as written and the model's test agree unless the test as written misfires. */
  lemma ReleaseAsWrittenCoalesced(m: map<int, int>, head: int, y: int, pages: map<int, int>, blocks: map<int, Block>,
                                  ptr: int)
    requires ptr in blocks && blocks[ptr].isAllocated && CoalesceGood((State(m, head), y), pages, RetagMap(blocks, ptr, false), ptr)
    ensures GetSize(Get(m, y - 16)) == 16 || GetSize(Get(m, y - 24)) != 16 ==>
      ReleasePageAsWritten((State(m, head), y)) == ReleasePage((State(m, head), y))
  {
    var nb, nfl :| HeapOk(m, head, pages, nb, nfl) && CoalescedFrom(RetagMap(blocks, ptr, false), nb, ptr, y);
    ReleaseAgrees(m, head, pages, nb, nfl, y);
  }

  /** mm_free as Allocator/mm.c writes it does what FreeOk proves of the model's mm_free, unless its whole-page test
    * misfires on the block y that coalesce returns with words cm: that takes a y that is not its page's first (the
    * word before its header is not the prolog footer) and a word of size 16 three words before its payload. */
  lemma FreeAsWrittenOk(m: map<int, int>, head: int, pages: map<int, int>, blocks: map<int, Block>, fl: seq<int>, ptr: int,
                        cm: map<int, int>, chead: int, y: int)
    requires HeapOk(m, head, pages, blocks, fl) && ptr in blocks && blocks[ptr].isAllocated
    requires Coalesced(MarkedFree(State(m, head), ptr), ptr) == (State(cm, chead), y)
    ensures GetSize(Get(cm, y - 16)) == 16 || GetSize(Get(cm, y - 24)) != 16 ==>
      && ReleasedAsWritten(State(m, head), ptr) == Released(State(m, head), ptr)
      && FreeGood(ReleasedAsWritten(State(m, head), ptr), pages, blocks, ptr)
  {
    FreedCoalesceGood(m, head, pages, blocks, fl, ptr);
    FreeOk(m, head, pages, blocks, fl, ptr);
    if GetSize(Get(cm, y - 16)) == 16 || GetSize(Get(cm, y - 24)) != 16 {
      ReleasedAgree(State(m, head), ptr, cm, chead, y, pages, blocks);
    }
  }

  /** mm_free as written and the model's mm_free agree when the test as written does not misfire on the block y that
    * coalesce returns with words m. */
  lemma ReleasedAgree(s: State, ptr: int, m: map<int, int>, head: int, y: int, pages: map<int, int>, blocks: map<int, Block>)
    requires ptr in blocks && blocks[ptr].isAllocated && Coalesced(MarkedFree(s, ptr), ptr) == (State(m, head), y)
    requires CoalesceGood(Coalesced(MarkedFree(s, ptr), ptr), pages, RetagMap(blocks, ptr, false), ptr)
    requires GetSize(Get(m, y - 16)) == 16 || GetSize(Get(m, y - 24)) != 16
    ensures ReleasedAsWritten(s, ptr) == Released(s, ptr)
  {
    ReleaseAsWrittenCoalesced(m, head, y, pages, blocks, ptr);
  }

  /** The state coalesce leaves after mm_free's first two writes is CoalesceGood. */
  lemma FreedCoalesceGood(m: map<int, int>, head: int, pages: map<int, int>, blocks: map<int, Block>, fl: seq<int>, ptr: int)
    requires HeapOk(m, head, pages, blocks, fl) && ptr in blocks && blocks[ptr].isAllocated
    ensures CoalesceGood(Coalesced(MarkedFree(State(m, head), ptr), ptr), pages, RetagMap(blocks, ptr, false), ptr)
  {
    var size := blocks[ptr].size;
    BlockSize(m, pages, blocks, ptr);
    ReleasedForm(m, head, ptr, size);
    ReleaseStep(m, head, pages, blocks, fl, ptr);
    CoalesceOk(RetagWrites(m, ptr, size, false), head, pages, RetagMap(blocks, ptr, false), fl, ptr);
  }

  // ---------------------------------------------------------------------------
  // mm_malloc
  // ---------------------------------------------------------------------------

  /** What mm_malloc made of `blocks`: p is a newly allocated block of at least `need` bytes, every allocated block is
    * kept, and no other block became allocated. */
  ghost predicate AllocatedFrom(blocks: map<int, Block>, nb: map<int, Block>, p: int, need: nat)
  {
    && p in nb && nb[p].isAllocated && nb[p].size >= need
    && !(p in blocks && blocks[p].isAllocated)
    && (forall q :: q in blocks && blocks[q].isAllocated ==> q in nb && nb[q] == blocks[q])
    && (forall q :: q in nb && nb[q].isAllocated && q != p ==> q in blocks && nb[q] == blocks[q])
  }

  /** set_allocated's block map allocates b and nothing else. */
  lemma AllocatedBlocksFrom(blocks: map<int, Block>, b: int, size: nat)
    requires b in blocks && !blocks[b].isAllocated && 0 < size <= blocks[b].size
    requires blocks[b].size - size > PAGE_OVERHEAD ==> b + size !in blocks
    ensures AllocatedFrom(blocks, AllocatedBlocks(blocks, b, size), b, size)
  {
  }

  /** Adding a page with one free block allocates nothing. */
  lemma AddedPageFrom(blocks: map<int, Block>, base: int, size: int, nb: map<int, Block>, p: int, need: nat)
    requires size >= 32 && base + 32 !in blocks && AllocatedFrom(AddPageMap(blocks, base, size), nb, p, need)
    ensures AllocatedFrom(blocks, nb, p, need)
  {
    var ab := AddPageMap(blocks, base, size);
    forall q | q in blocks && blocks[q].isAllocated
      ensures q in nb && nb[q] == blocks[q]
    {
      assert ab[q] == blocks[q];
    }
  }

  /** Adding a fresh page keeps every page already there. */
  lemma AddedPageKeeps(pages: map<int, int>, base: int, size: int)
    requires base !in pages
    ensures forall a :: a in pages ==> a in pages[base := size] && pages[base := size][a] == pages[a]
  {
  }

  /** What mm_malloc promises of its result u (state, `initial_page`, payload) for a request of `need` bytes with
    * overhead: a well-formed heap that keeps every page, in which u.2 is a newly allocated block of at least `need`
    * bytes; `initial_page` does not decrease. */
  ghost predicate MallocGood(u: (State, nat, int), pages: map<int, int>, blocks: map<int, Block>, initialPage: nat, need: nat)
  {
    && u.1 >= initialPage
    && (exists np, nb, nfl ::
          && HeapOk(u.0.mem, u.0.head, np, nb, nfl)
          && (forall a :: a in pages ==> a in np && np[a] == pages[a])
          && AllocatedFrom(blocks, nb, u.2, need))
  }

  /** MallocGood, from its witnesses. */
  lemma MallocGoodBy(m: map<int, int>, head: int, ip: nat, p: int, pages: map<int, int>, blocks: map<int, Block>,
                     initialPage: nat, need: nat, np: map<int, int>, nb: map<int, Block>, nfl: seq<int>)
    requires ip >= initialPage && HeapOk(m, head, np, nb, nfl)
    requires (forall a :: a in pages ==> a in np && np[a] == pages[a]) && AllocatedFrom(blocks, nb, p, need)
    ensures MallocGood((State(m, head), ip, p), pages, blocks, initialPage, need)
  {
  }

  /** set_allocated on a free block holding `need` bytes: the heap stays well formed and exactly that block becomes
    * allocated. */
  lemma AllocateFrom(m: map<int, int>, head: int, pages: map<int, int>, blocks: map<int, Block>, fl: seq<int>, b: int, need: nat)
    requires HeapOk(m, head, pages, blocks, fl) && b in fl && b in blocks && !blocks[b].isAllocated
    requires need >= 32 && need % 16 == 0 && need <= blocks[b].size
    ensures var r := Allocate(State(m, head), b, need);
      && HeapOk(r.mem, r.head, pages, AllocatedBlocks(blocks, b, need), AllocatedList(blocks, fl, b, need))
      && AllocatedFrom(blocks, AllocatedBlocks(blocks, b, need), b, need)
  {
    LayoutOf(pages, blocks);
    if blocks[b].size - need > PAGE_OVERHEAD {
      SplitPointFree(blocks, b, need);
    }
    AllocatedBlocksFrom(blocks, b, need);
    AllocateOk(m, head, pages, blocks, fl, b, need);
  }

  /** set_allocated on the block first_fit found, on a well-formed heap. */
  lemma AllocateFound(m: map<int, int>, head: int, initialPage: nat, pages: map<int, int>, blocks: map<int, Block>,
                      fl: seq<int>, need: nat, p: int)
    requires HeapOk(m, head, pages, blocks, fl) && need >= 32 && need % 16 == 0
    requires p != 0 && p == FirstFitIn(m, fl, need)
    ensures MallocGood((Allocate(State(m, head), p, need), initialPage, p), pages, blocks, initialPage, need)
  {
    FirstFitOk(m, head, pages, blocks, fl, need);
    var i := FirstFitIndex(blocks, fl, need);
    assert p == fl[i] && p in fl;
    assert !blocks[p].isAllocated;
    AllocateFrom(m, head, pages, blocks, fl, p, need);
    var r := Allocate(State(m, head), p, need);
    MallocGoodBy(r.mem, r.head, initialPage, p, pages, blocks, initialPage, need,
                 pages, AllocatedBlocks(blocks, p, need), AllocatedList(blocks, fl, p, need));
    assert r == State(r.mem, r.head);
  }

  /** MallocGood of mm_malloc's result when first_fit finds a block, from MallocGood of its closed form. */
  lemma HitGood(m: map<int, int>, head: int, initialPage: nat, ps: nat, pages: map<int, int>, blocks: map<int, Block>,
                fl: seq<int>, size: nat, base: int, need: nat, p: int)
    requires ps > 0 && need == Align(size + OVERHEAD) && p == FirstFitIn(m, fl, need) && p != 0
    requires MallocGood((Allocate(State(m, head), p, need), initialPage, p), pages, blocks, initialPage, need)
    ensures MallocGood(Malloc(State(m, head), initialPage, ps, fl, size, base), pages, blocks, initialPage, need)
  {
  }

  /** mm_malloc when first_fit finds a block. */
  lemma MallocHit(m: map<int, int>, head: int, initialPage: nat, ps: nat, pages: map<int, int>, blocks: map<int, Block>,
                  fl: seq<int>, size: nat, base: int)
    requires HeapOk(m, head, pages, blocks, fl) && ps > 0 && size >= 1
    requires FirstFitIn(m, fl, Align(size + OVERHEAD)) != 0
    ensures MallocGood(Malloc(State(m, head), initialPage, ps, fl, size, base), pages, blocks, initialPage, Align(size + OVERHEAD))
  {
    var need := Align(size + OVERHEAD);
    RequestShape(size);
    var p := FirstFitIn(m, fl, need);
    AllocateFound(m, head, initialPage, pages, blocks, fl, need, p);
    HitGood(m, head, initialPage, ps, pages, blocks, fl, size, base, need, p);
  }

  /** mm_malloc's closed form when first_fit finds nothing: extend's page is pushed and its block allocated. */
  lemma MissForm(m: map<int, int>, head: int, initialPage: nat, ps: nat, fl: seq<int>, size: nat, base: int)
    requires PowerOfTwo(ps) && ps >= ALLOC_GRANULARITY && FirstFitIn(m, fl, Align(size + OVERHEAD)) == 0
    ensures var h := base + 32;
      var em := Pushed(PageWrites(m, base, ExtendSize(initialPage, ps)), head, h);
      Malloc(State(m, head), initialPage, ps, fl, size, base)
        == (Allocate(State(em, h), h, Align(size + OVERHEAD)), NextInitialPage(initialPage, ps), h)
  {
    ExtendForm(m, head, initialPage, ps, base);
  }

  /** The allocation after extend: the new page's block, at the head of the list, is allocated, and the pages and
    * allocated blocks from before extend are kept. */
  lemma AllocateOnNewPage(em: map<int, int>, h: int, pages: map<int, int>, blocks: map<int, Block>, fl: seq<int>,
                          base: int, sz: int, ip: nat, initialPage: nat, need: nat)
    requires sz >= 64 && h == base + 32 && base !in pages && h !in blocks && ip >= initialPage
    requires HeapOk(em, h, pages[base := sz], AddPageMap(blocks, base, sz), [h] + fl)
    requires need >= 32 && need % 16 == 0 && need <= sz - PAGE_OVERHEAD
    ensures MallocGood((Allocate(State(em, h), h, need), ip, h), pages, blocks, initialPage, need)
  {
    var np, ab := pages[base := sz], AddPageMap(blocks, base, sz);
    AllocateFrom(em, h, np, ab, [h] + fl, h, need);
    AddedPageFrom(blocks, base, sz, AllocatedBlocks(ab, h, need), h, need);
    var r := Allocate(State(em, h), h, need);
    var nb, nfl := AllocatedBlocks(ab, h, need), AllocatedList(ab, [h] + fl, h, need);
    AddedPageKeeps(pages, base, sz);
    MallocGoodBy(r.mem, r.head, ip, h, pages, blocks, initialPage, need, np, nb, nfl);
    assert r == State(r.mem, r.head);
  }

  /** extend followed by set_allocated on the new page's block, on a well-formed heap. */
  lemma ExtendThenAllocate(m: map<int, int>, head: int, initialPage: nat, ps: nat, pages: map<int, int>,
                           blocks: map<int, Block>, fl: seq<int>, need: nat, base: int)
    requires HeapOk(m, head, pages, blocks, fl) && PowerOfTwo(ps) && ps >= ALLOC_GRANULARITY
    requires Fresh(pages, base, ExtendSize(initialPage, ps))
    requires need >= 32 && need % 16 == 0 && need <= ExtendSize(initialPage, ps) - PAGE_OVERHEAD
    ensures var h := base + 32;
      var em := Pushed(PageWrites(m, base, ExtendSize(initialPage, ps)), head, h);
      MallocGood((Allocate(State(em, h), h, need), NextInitialPage(initialPage, ps), h), pages, blocks, initialPage, need)
  {
    var sz, h := ExtendSize(initialPage, ps), base + 32;
    var ip := NextInitialPage(initialPage, ps);
    var em := Pushed(PageWrites(m, base, sz), head, h);
    ExtendSizeShape(initialPage, ps);
    ExtendStep(m, head, pages, blocks, fl, base, sz);
    LayoutOf(pages, blocks);
    FreshBlock(pages, blocks, base, sz);
    InitialPageBounded(initialPage, ps);
    AllocateOnNewPage(em, h, pages, blocks, fl, base, sz, ip, initialPage, need);
  }

  /** MallocGood of mm_malloc's result when first_fit finds nothing, from MallocGood of its closed form. */
  lemma MissGood(m: map<int, int>, head: int, initialPage: nat, ps: nat, pages: map<int, int>, blocks: map<int, Block>,
                 fl: seq<int>, size: nat, base: int)
    requires PowerOfTwo(ps) && ps >= ALLOC_GRANULARITY && FirstFitIn(m, fl, Align(size + OVERHEAD)) == 0
    requires var h := base + 32;
      var em := Pushed(PageWrites(m, base, ExtendSize(initialPage, ps)), head, h);
      MallocGood((Allocate(State(em, h), h, Align(size + OVERHEAD)), NextInitialPage(initialPage, ps), h),
                 pages, blocks, initialPage, Align(size + OVERHEAD))
    ensures MallocGood(Malloc(State(m, head), initialPage, ps, fl, size, base), pages, blocks, initialPage, Align(size + OVERHEAD))
  {
    MissForm(m, head, initialPage, ps, fl, size, base);
  }

  /** mm_malloc when first_fit finds nothing: extend maps the page at `base` and its one block is allocated. */
  lemma MallocMiss(m: map<int, int>, head: int, initialPage: nat, ps: nat, pages: map<int, int>, blocks: map<int, Block>,
                   fl: seq<int>, size: nat, base: int)
    requires HeapOk(m, head, pages, blocks, fl) && PowerOfTwo(ps) && ps >= ALLOC_GRANULARITY && size >= 1
    requires FirstFitIn(m, fl, Align(size + OVERHEAD)) == 0
    requires Fresh(pages, base, ExtendSize(initialPage, ps))
    requires Align(size + OVERHEAD) <= ExtendSize(initialPage, ps) - PAGE_OVERHEAD
    ensures MallocGood(Malloc(State(m, head), initialPage, ps, fl, size, base), pages, blocks, initialPage, Align(size + OVERHEAD))
  {
    RequestShape(size);
    ExtendThenAllocate(m, head, initialPage, ps, pages, blocks, fl, Align(size + OVERHEAD), base);
    MissGood(m, head, initialPage, ps, pages, blocks, fl, size, base);
  }

  /** mm_malloc(size) on a well-formed heap returns a newly allocated block holding ALIGN(size + OVERHEAD) bytes and
    * keeps every page and every allocated block; when first_fit finds nothing, the page provider must map the
    * extend size at a fresh `base`, and the new page's block must hold the request (extend does not size the page
    * for it). */
  lemma MallocOk(m: map<int, int>, head: int, initialPage: nat, ps: nat, pages: map<int, int>, blocks: map<int, Block>,
                 fl: seq<int>, size: nat, base: int)
    requires HeapOk(m, head, pages, blocks, fl) && PowerOfTwo(ps) && ps >= ALLOC_GRANULARITY && size >= 1
    requires FirstFitIn(m, fl, Align(size + OVERHEAD)) == 0 ==>
      Fresh(pages, base, ExtendSize(initialPage, ps)) && Align(size + OVERHEAD) <= ExtendSize(initialPage, ps) - PAGE_OVERHEAD
    ensures MallocGood(Malloc(State(m, head), initialPage, ps, fl, size, base), pages, blocks, initialPage, Align(size + OVERHEAD))
  {
    if FirstFitIn(m, fl, Align(size + OVERHEAD)) != 0 {
      MallocHit(m, head, initialPage, ps, pages, blocks, fl, size, base);
    } else {
      MallocMiss(m, head, initialPage, ps, pages, blocks, fl, size, base);
    }
  }
}
