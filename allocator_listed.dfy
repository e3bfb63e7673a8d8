/// Which blocks are on the free list of Allocator/mm.c, and which neighbours
/// may both be free, across each change to the block map.  `Listed(blocks, fl,
/// skip)` says a block is listed iff it is free (blocks in `skip` are free and
/// not yet listed); `NoAdjacentFree(blocks, skip)` says no free block is
/// followed by a free block (leaving out `skip`).  Coalescing restores both
/// after mm_free marks a block free.
module AllocatorListed {
  import opened AllocatorCodec
  import opened AllocatorHeap
  import opened AllocatorList
  import opened AllocatorBlocks
  import opened AllocatorPages

  /** The free-list nodes are distinct. */
  ghost predicate Distinct(fl: seq<int>)
  {
    forall i, j :: 0 <= i < j < |fl| ==> fl[i] != fl[j]
  }

  /** Taking one element out of a list keeps every other element. */
  lemma InWithout(fl: seq<int>, k: nat, x: int)
    requires k < |fl| && x in fl && x != fl[k]
    ensures x in Without(fl, k)
  {
    var j := IndexOf(fl, x);
    assert Without(fl, k)[if j < k then j else j - 1] == x;
  }

  /** What is left after taking out one element of a list was in it. */
  lemma FromWithout(fl: seq<int>, k: nat, x: int)
    requires k < |fl| && Distinct(fl) && x in Without(fl, k)
    ensures x in fl && x != fl[k]
  {
    var r := Without(fl, k);
    var j :| 0 <= j < |r| && r[j] == x;
    assert x == (if j < k then fl[j] else fl[j + 1]);
  }

  // ---------------------------------------------------------------------------
  // set_allocated
  // ---------------------------------------------------------------------------

  /** set_allocated with a split: `b` leaves the list, the free remainder joins it at the head. */
  lemma ListedSplit(blocks: map<int, Block>, fl: seq<int>, k: nat, b1: Block, b2: Block, c: int)
    requires Listed(blocks, fl, {}) && NoAdjacentFree(blocks, {}) && Disjoint(blocks) && Distinct(fl)
    requires k < |fl| && SplitsInto(blocks, fl[k], b1, b2) && c == fl[k] + b1.size
    requires b1.isAllocated && !b2.isAllocated
    ensures Listed(SplitMap(blocks, fl[k], b1, b2), [c] + Without(fl, k), {})
    ensures NoAdjacentFree(SplitMap(blocks, fl[k], b1, b2), {})
  {
    SplitPointFresh(blocks, fl[k], b1, b2);
    SplitListed(blocks, fl, k, b1, b2);
    SplitAdjacent(blocks, fl[k], b1, b2);
  }

  /** The list half of ListedSplit. */
  lemma SplitListed(blocks: map<int, Block>, fl: seq<int>, k: nat, b1: Block, b2: Block)
    requires Listed(blocks, fl, {}) && Distinct(fl)
    requires k < |fl| && SplitsInto(blocks, fl[k], b1, b2) && fl[k] + b1.size !in blocks
    requires b1.isAllocated && !b2.isAllocated
    ensures Listed(SplitMap(blocks, fl[k], b1, b2), [fl[k] + b1.size] + Without(fl, k), {})
  {
    var b := fl[k];
    var c := b + b1.size;
    var nb := SplitMap(blocks, b, b1, b2);
    var nf := [c] + Without(fl, k);
    forall i | 0 <= i < |nf|
      ensures nf[i] in nb && !nb[nf[i]].isAllocated
    {
      if i > 0 {
        assert nf[i] in Without(fl, k);
        FromWithout(fl, k, nf[i]);
      }
    }
    forall bp | bp in nb && !nb[bp].isAllocated
      ensures bp in nf
    {
      if bp != c {
        InWithout(fl, k, bp);
      }
    }
  }

  /** The neighbour half of ListedSplit: `b` was free, so what follows it is allocated. */
  lemma SplitAdjacent(blocks: map<int, Block>, b: int, b1: Block, b2: Block)
    requires NoAdjacentFree(blocks, {}) && Disjoint(blocks)
    requires SplitsInto(blocks, b, b1, b2) && !blocks[b].isAllocated && b + b1.size !in blocks
    requires b1.isAllocated && !b2.isAllocated
    ensures NoAdjacentFree(SplitMap(blocks, b, b1, b2), {})
  {
    var c := b + b1.size;
    var nb := SplitMap(blocks, b, b1, b2);
    forall bp | bp in nb && !nb[bp].isAllocated && bp + nb[bp].size in nb
      ensures nb[bp + nb[bp].size].isAllocated
    {
      if bp == c {
        assert !FreePair(blocks, {}, b);
      } else {
        assert !FreePair(blocks, {}, bp);
        BlockOrder(blocks, bp, b);
        BlockOrder(blocks, b, bp);
      }
    }
  }

  /** set_allocated without a split: `b` leaves the list and becomes allocated. */
  lemma ListedTake(blocks: map<int, Block>, fl: seq<int>, k: nat)
    requires Listed(blocks, fl, {}) && NoAdjacentFree(blocks, {}) && Distinct(fl) && k < |fl|
    ensures Listed(RetagMap(blocks, fl[k], true), Without(fl, k), {})
    ensures NoAdjacentFree(RetagMap(blocks, fl[k], true), {})
  {
    TakeListed(blocks, fl, k);
    TakeAdjacent(blocks, fl[k]);
  }

  /** The list half of ListedTake. */
  lemma TakeListed(blocks: map<int, Block>, fl: seq<int>, k: nat)
    requires Listed(blocks, fl, {}) && Distinct(fl) && k < |fl|
    ensures Listed(RetagMap(blocks, fl[k], true), Without(fl, k), {})
  {
    var nb := RetagMap(blocks, fl[k], true);
    var nf := Without(fl, k);
    forall i | 0 <= i < |nf|
      ensures nf[i] in nb && !nb[nf[i]].isAllocated
    {
      assert nf[i] in Without(fl, k);
      FromWithout(fl, k, nf[i]);
    }
    forall bp | bp in nb && !nb[bp].isAllocated
      ensures bp in nf
    {
      InWithout(fl, k, bp);
    }
  }

  /** The neighbour half of ListedTake: allocating a block cannot make two free blocks adjacent. */
  lemma TakeAdjacent(blocks: map<int, Block>, x: int)
    requires NoAdjacentFree(blocks, {}) && x in blocks
    ensures NoAdjacentFree(RetagMap(blocks, x, true), {})
  {
    var nb := RetagMap(blocks, x, true);
    forall bp | bp in nb && !nb[bp].isAllocated && bp + nb[bp].size in nb
      ensures nb[bp + nb[bp].size].isAllocated
    {
      assert !FreePair(blocks, {}, bp);
    }
  }

  // ---------------------------------------------------------------------------
  // mm_free and coalesce
  // ---------------------------------------------------------------------------

  /** mm_free marks `x` free: it is free and not yet listed. */
  lemma ListedRelease(blocks: map<int, Block>, fl: seq<int>, x: int)
    requires Listed(blocks, fl, {}) && NoAdjacentFree(blocks, {}) && x in blocks && blocks[x].isAllocated
    ensures Listed(RetagMap(blocks, x, false), fl, {x})
    ensures NoAdjacentFree(RetagMap(blocks, x, false), {x})
  {
    var nb := RetagMap(blocks, x, false);
    forall bp | bp in nb && bp != x && !nb[bp].isAllocated && bp + nb[bp].size in nb && bp + nb[bp].size != x
      ensures nb[bp + nb[bp].size].isAllocated
    {
      assert !FreePair(blocks, {}, bp);
    }
  }

  /** No free block ends at `x`. */
  ghost predicate NoFreeBefore(blocks: map<int, Block>, x: int)
  {
    forall y :: y in blocks && y + blocks[y].size == x ==> blocks[y].isAllocated
  }

  /** The block after `x`, if any, is allocated. */
  ghost predicate AllocatedAfter(blocks: map<int, Block>, x: int)
  {
    x in blocks && (x + blocks[x].size in blocks ==> blocks[x + blocks[x].size].isAllocated)
  }

  /** coalesce, both neighbours allocated: `x` joins the list as it is. */
  lemma ListedAlone(blocks: map<int, Block>, fl: seq<int>, x: int)
    requires Listed(blocks, fl, {x}) && NoAdjacentFree(blocks, {x}) && x in blocks && !blocks[x].isAllocated
    requires NoFreeBefore(blocks, x) && AllocatedAfter(blocks, x)
    ensures Listed(blocks, [x] + fl, {}) && NoAdjacentFree(blocks, {})
  {
    forall bp | bp in blocks && !blocks[bp].isAllocated && bp + blocks[bp].size in blocks
      ensures blocks[bp + blocks[bp].size].isAllocated
    {
      if bp != x && bp + blocks[bp].size != x {
        assert !FreePair(blocks, {x}, bp);
      }
    }
  }

  /** coalesce, next block free: `x` absorbs it; the next block leaves the list and `x` joins it at the head. */
  lemma ListedMergeNext(blocks: map<int, Block>, fl: seq<int>, x: int, k: nat)
    requires Listed(blocks, fl, {x}) && NoAdjacentFree(blocks, {x}) && Disjoint(blocks) && Distinct(fl)
    requires HasNext(blocks, x) && !blocks[x].isAllocated && NoFreeBefore(blocks, x)
    requires k < |fl| && fl[k] == x + blocks[x].size
    ensures Listed(MergeMap(blocks, x), [x] + Without(fl, k), {})
    ensures NoAdjacentFree(MergeMap(blocks, x), {})
  {
    MergeNextListed(blocks, fl, x, k);
    MergeNextAdjacent(blocks, x);
  }

  /** The list half of ListedMergeNext. */
  lemma MergeNextListed(blocks: map<int, Block>, fl: seq<int>, x: int, k: nat)
    requires Listed(blocks, fl, {x}) && Distinct(fl)
    requires HasNext(blocks, x) && !blocks[x].isAllocated
    requires k < |fl| && fl[k] == x + blocks[x].size
    ensures Listed(MergeMap(blocks, x), [x] + Without(fl, k), {})
  {
    var nb := MergeMap(blocks, x);
    var nf := [x] + Without(fl, k);
    forall i | 0 <= i < |nf|
      ensures nf[i] in nb && !nb[nf[i]].isAllocated
    {
      if i > 0 {
        assert nf[i] in Without(fl, k);
        FromWithout(fl, k, nf[i]);
      }
    }
    forall bp | bp in nb && !nb[bp].isAllocated
      ensures bp in nf
    {
      if bp != x {
        InWithout(fl, k, bp);
      }
    }
  }

  /** The neighbour half of ListedMergeNext. */
  lemma MergeNextAdjacent(blocks: map<int, Block>, x: int)
    requires NoAdjacentFree(blocks, {x})
    requires HasNext(blocks, x) && !blocks[x].isAllocated && NoFreeBefore(blocks, x)
    requires !blocks[x + blocks[x].size].isAllocated
    ensures NoAdjacentFree(MergeMap(blocks, x), {})
  {
    var nb := MergeMap(blocks, x);
    forall bp | bp in nb && !nb[bp].isAllocated && bp + nb[bp].size in nb
      ensures nb[bp + nb[bp].size].isAllocated
    {
      MergeNextAdjacentAt(blocks, x, bp);
    }
  }

  /** ListedMergeNext's neighbour half at one free block `bp`. */
  lemma MergeNextAdjacentAt(blocks: map<int, Block>, x: int, bp: int)
    requires NoAdjacentFree(blocks, {x})
    requires HasNext(blocks, x) && !blocks[x].isAllocated && NoFreeBefore(blocks, x)
    requires !blocks[x + blocks[x].size].isAllocated
    requires bp in MergeMap(blocks, x) && !MergeMap(blocks, x)[bp].isAllocated
    requires bp + MergeMap(blocks, x)[bp].size in MergeMap(blocks, x)
    ensures MergeMap(blocks, x)[bp + MergeMap(blocks, x)[bp].size].isAllocated
  {
    var y := x + blocks[x].size;
    if bp == x {
      assert !FreePair(blocks, {x}, y);
    } else {
      assert bp + blocks[bp].size != x;
      assert !FreePair(blocks, {x}, bp);
    }
  }

  /** coalesce, previous block free: it absorbs `x` and keeps its place in the list. */
  lemma ListedMergePrev(blocks: map<int, Block>, fl: seq<int>, p: int, x: int)
    requires HasNext(blocks, p) && !blocks[p].isAllocated && p + blocks[p].size == x
    requires Listed(blocks, fl, {x}) && NoAdjacentFree(blocks, {x})
    requires Disjoint(blocks) && AllocatedAfter(blocks, x)
    ensures Listed(MergeMap(blocks, p), fl, {}) && NoAdjacentFree(MergeMap(blocks, p), {})
  {
    var nb := MergeMap(blocks, p);
    forall bp | bp in nb && !nb[bp].isAllocated && bp + nb[bp].size in nb
      ensures nb[bp + nb[bp].size].isAllocated
    {
      MergePrevAdjacentAt(blocks, p, x, bp);
    }
  }

  /** One block of ListedMergePrev's adjacency proof. */
  lemma MergePrevAdjacentAt(blocks: map<int, Block>, p: int, x: int, bp: int)
    requires HasNext(blocks, p) && !blocks[p].isAllocated && p + blocks[p].size == x
    requires NoAdjacentFree(blocks, {x})
    requires Disjoint(blocks) && AllocatedAfter(blocks, x)
    requires bp in MergeMap(blocks, p) && !MergeMap(blocks, p)[bp].isAllocated
    requires bp + MergeMap(blocks, p)[bp].size in MergeMap(blocks, p)
    ensures MergeMap(blocks, p)[bp + MergeMap(blocks, p)[bp].size].isAllocated
  {
    if bp != p {
      assert !FreePair(blocks, {x}, bp);
      BlockOrder(blocks, bp, p);
      BlockOrder(blocks, p, bp);
    }
  }


  /** coalesce, both neighbours free: the list loses the right neighbour, whose block joins `p` with `x`. */
  lemma MergeBothListed(blocks: map<int, Block>, fl: seq<int>, p: int, x: int, k: nat)
    requires HasNext(blocks, p) && !blocks[p].isAllocated && p + blocks[p].size == x
    requires HasNext(MergeMap(blocks, p), p)
    requires Listed(blocks, fl, {x}) && Distinct(fl)
    requires k < |fl| && fl[k] == p + MergeMap(blocks, p)[p].size
    ensures Listed(MergeMap(MergeMap(blocks, p), p), Without(fl, k), {})
  {
    var nb := MergeMap(MergeMap(blocks, p), p);
    var nf := Without(fl, k);
    forall i | 0 <= i < |nf|
      ensures nf[i] in nb && !nb[nf[i]].isAllocated
    {
      assert nf[i] in Without(fl, k);
      FromWithout(fl, k, nf[i]);
    }
    forall bp | bp in nb && !nb[bp].isAllocated
      ensures bp in nf
    {
      if bp != p {
        InWithout(fl, k, bp);
      }
    }
  }

  /** coalesce, both neighbours free: the merged block has an allocated block after it. */
  lemma MergeBothAdjacent(blocks: map<int, Block>, p: int, x: int)
    requires HasNext(blocks, p) && !blocks[p].isAllocated && p + blocks[p].size == x
    requires HasNext(MergeMap(blocks, p), p)
    requires NoAdjacentFree(blocks, {x}) && Disjoint(blocks)
    requires !blocks[p + MergeMap(blocks, p)[p].size].isAllocated
    ensures NoAdjacentFree(MergeMap(MergeMap(blocks, p), p), {})
  {
    var nb := MergeMap(MergeMap(blocks, p), p);
    forall bp | bp in nb && !nb[bp].isAllocated && bp + nb[bp].size in nb
      ensures nb[bp + nb[bp].size].isAllocated
    {
      MergeBothAdjacentAt(blocks, p, x, bp);
    }
  }

  /** MergeBothAdjacent at one free block `bp`. */
  lemma MergeBothAdjacentAt(blocks: map<int, Block>, p: int, x: int, bp: int)
    requires HasNext(blocks, p) && !blocks[p].isAllocated && p + blocks[p].size == x
    requires HasNext(MergeMap(blocks, p), p)
    requires NoAdjacentFree(blocks, {x}) && Disjoint(blocks)
    requires !blocks[p + MergeMap(blocks, p)[p].size].isAllocated
    requires bp in MergeMap(MergeMap(blocks, p), p) && !MergeMap(MergeMap(blocks, p), p)[bp].isAllocated
    requires bp + MergeMap(MergeMap(blocks, p), p)[bp].size in MergeMap(MergeMap(blocks, p), p)
    ensures MergeMap(MergeMap(blocks, p), p)[bp + MergeMap(MergeMap(blocks, p), p)[bp].size].isAllocated
  {
    var nb1 := MergeMap(blocks, p);
    var z := p + nb1[p].size;
    assert z == x + blocks[x].size && z != x;
    if bp == p {
      assert !FreePair(blocks, {x}, z);
    } else {
      assert !FreePair(blocks, {x}, bp);
      BlockOrder(blocks, bp, p);
      BlockOrder(blocks, p, bp);
    }
  }

  // ---------------------------------------------------------------------------
  // Pages
  // ---------------------------------------------------------------------------

  /** extend: the new page's block is free and joins the list at the head. */
  lemma ListedAddPage(blocks: map<int, Block>, fl: seq<int>, base: int, size: int)
    requires Listed(blocks, fl, {}) && NoAdjacentFree(blocks, {}) && size >= 64
    requires forall bp :: bp in blocks ==> bp + blocks[bp].size <= base || base + size <= bp
    requires base + size !in blocks
    ensures Listed(AddPageMap(blocks, base, size), [base + 32] + fl, {})
    ensures NoAdjacentFree(AddPageMap(blocks, base, size), {})
  {
    assert base + 32 !in blocks;
    var nb := AddPageMap(blocks, base, size);
    forall bp | bp in nb && !nb[bp].isAllocated && bp + nb[bp].size in nb
      ensures nb[bp + nb[bp].size].isAllocated
    {
      if bp != base + 32 {
        assert !FreePair(blocks, {}, bp);
      }
    }
  }

  /** mm_free dropping a page: its one block leaves the list. */
  lemma ListedRemovePage(blocks: map<int, Block>, fl: seq<int>, k: nat)
    requires Listed(blocks, fl, {}) && NoAdjacentFree(blocks, {}) && Distinct(fl) && k < |fl|
    ensures Listed(blocks - {fl[k]}, Without(fl, k), {}) && NoAdjacentFree(blocks - {fl[k]}, {})
  {
    var nb := blocks - {fl[k]};
    var nf := Without(fl, k);
    forall i | 0 <= i < |nf|
      ensures nf[i] in nb && !nb[nf[i]].isAllocated
    {
      assert nf[i] in Without(fl, k);
      FromWithout(fl, k, nf[i]);
    }
    forall bp | bp in nb && !nb[bp].isAllocated
      ensures bp in nf
    {
      InWithout(fl, k, bp);
    }
    forall bp | bp in nb && !nb[bp].isAllocated && bp + nb[bp].size in nb
      ensures nb[bp + nb[bp].size].isAllocated
    {
      assert !FreePair(blocks, {}, bp);
    }
  }
}
