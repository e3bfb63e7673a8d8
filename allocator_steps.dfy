/// The memory writes of each step of Allocator/mm.c, and the invariants that
/// hold after them.  Every step names the words it writes, in the order the
/// source writes them; one lemma says which control words the writes keep,
/// one that the free list is kept, and one puts these together with the
/// matching lemma about the block map.
module AllocatorSteps {
  import opened AllocatorCodec
  import opened AllocatorHeap
  import opened AllocatorList
  import opened AllocatorBlocks
  import opened AllocatorPages

  /** SameControl over a map holds over any map whose entries are entries of it. */
  lemma ControlSub(m1: map<int, int>, m2: map<int, int>, pages: map<int, int>, blocks: map<int, Block>, sub: map<int, Block>)
    requires SameControl(m1, m2, pages, blocks)
    requires forall bp :: bp in sub ==> bp in blocks && sub[bp] == blocks[bp]
    ensures SameControl(m1, m2, pages, sub)
  {
    SameTagsSub(m1, m2, blocks, sub);
  }

  /** `m2` agrees with `m1` everywhere except at the addresses in `w`. */
  ghost predicate Agree(m1: map<int, int>, m2: map<int, int>, w: set<int>)
  {
    forall a :: a !in w ==> Get(m2, a) == Get(m1, a)
  }

  /** Writes confined to the span of blocks x..y of one page keep the tags of every block outside that span. */
  lemma SpanTags(m1: map<int, int>, m2: map<int, int>, blocks: map<int, Block>, x: int, y: int, w: set<int>, keep: map<int, Block>)
    requires Disjoint(blocks) && Big(blocks) && x in blocks && y in blocks && x <= y
    requires Agree(m1, m2, w) && forall a :: a in w ==> x - 8 <= a < y + blocks[y].size - 8
    requires forall bp :: bp in keep ==> bp in blocks && keep[bp] == blocks[bp] && (bp < x || y < bp)
    ensures SameTags(m1, m2, keep)
  {
    forall bp | bp in keep
      ensures Get(m2, bp - 8) == Get(m1, bp - 8)
      ensures Get(m2, bp + keep[bp].size - 16) == Get(m1, bp + keep[bp].size - 16)
    {
      if bp < x {
        assert Apart(blocks, bp, x);
      } else {
        assert Apart(blocks, y, bp);
      }
      assert bp - 8 !in w && bp + blocks[bp].size - 16 !in w;
    }
  }

  /** Writes confined to the interior of page c keep every prolog and terminator. */
  lemma SpanFrames(m1: map<int, int>, m2: map<int, int>, pages: map<int, int>, c: int, w: set<int>)
    requires PagesDisjoint(pages) && (forall b :: b in pages ==> pages[b] >= 64)
    requires c in pages && Agree(m1, m2, w) && forall a :: a in w ==> c + 24 <= a < c + pages[c] - 8
    ensures SameFrames(m1, m2, pages)
  {
    forall b | b in pages
      ensures Get(m2, b + 8) == Get(m1, b + 8) && Get(m2, b + 16) == Get(m1, b + 16)
      ensures Get(m2, b + pages[b] - 8) == Get(m1, b + pages[b] - 8)
    {
      if b < c {
        assert b + pages[b] <= c;
      } else if b > c {
        assert c + pages[c] <= b;
      }
      assert b + 8 !in w && b + 16 !in w && b + pages[b] - 8 !in w;
    }
  }

  /** Writes confined to the span of blocks x..y of one page keep the control words outside that span. */
  lemma SpanControl(m1: map<int, int>, m2: map<int, int>, pages: map<int, int>, blocks: map<int, Block>, x: int, y: int, w: set<int>, keep: map<int, Block>)
    requires Layout(pages, blocks) && x in blocks && y in blocks && x <= y && blocks[x].page == blocks[y].page
    requires Agree(m1, m2, w) && forall a :: a in w ==> x - 8 <= a < y + blocks[y].size - 8
    requires forall bp :: bp in keep ==> bp in blocks && keep[bp] == blocks[bp] && (bp < x || y < bp)
    ensures SameControl(m1, m2, pages, keep)
  {
    assert InPage(pages, x, blocks[x]) && InPage(pages, y, blocks[y]);
    SpanTags(m1, m2, blocks, x, y, w, keep);
    SpanFrames(m1, m2, pages, blocks[x].page, w);
  }

  /** add_list_node keeps the boundary tags. */
  lemma PushCore(m: map<int, int>, pages: map<int, int>, blocks: map<int, Block>, head: int, fl: seq<int>, bp: int)
    requires Core(m, pages, blocks) && ListOk(m, head, fl) && NodesAreBlocks(blocks, fl) && bp in blocks
    ensures Core(Pushed(m, head, bp), pages, blocks)
  {
    LayoutOf(pages, blocks);
    PushedControl(m, pages, blocks, head, fl, bp);
    ControlFrame(m, Pushed(m, head, bp), pages, blocks);
  }

  /** remove_list_node keeps the boundary tags. */
  lemma UnlinkCore(m: map<int, int>, pages: map<int, int>, blocks: map<int, Block>, head: int, fl: seq<int>, k: nat)
    requires Core(m, pages, blocks) && ListOk(m, head, fl) && NodesAreBlocks(blocks, fl) && k < |fl|
    ensures Core(Unlinked(m, fl[k]), pages, blocks)
  {
    LayoutOf(pages, blocks);
    UnlinkedControl(m, pages, blocks, head, fl, k);
    ControlFrame(m, Unlinked(m, fl[k]), pages, blocks);
  }

  // ---------------------------------------------------------------------------
  // Header and footer of one block (set_allocated without a split, mm_free)
  // ---------------------------------------------------------------------------

  /** The header and footer writes that give block x the allocated bit `a`. */
  function RetagWrites(m: map<int, int>, x: int, size: nat, a: bool): map<int, int>
  {
    m[x - 8 := Pack(size, if a then 1 else 0)][x + size - 16 := Pack(size, if a then 1 else 0)]
  }

  /** The retag writes stay inside x and carry the new tag. */
  lemma RetagControl(m: map<int, int>, pages: map<int, int>, blocks: map<int, Block>, x: int, a: bool)
    requires Layout(pages, blocks) && x in blocks
    ensures SameControl(m, RetagWrites(m, x, blocks[x].size, a), pages, blocks - {x})
    ensures Get(RetagWrites(m, x, blocks[x].size, a), x - 8) == Tag(RetagMap(blocks, x, a)[x])
    ensures Get(RetagWrites(m, x, blocks[x].size, a), x + blocks[x].size - 16) == Tag(RetagMap(blocks, x, a)[x])
  {
    var s := blocks[x].size;
    var w := {x - 8, x + s - 16};
    var m2 := RetagWrites(m, x, s, a);
    assert Agree(m, m2, w);
    SpanControl(m, m2, pages, blocks, x, x, w, blocks - {x});
  }

  /** The retag writes miss every list node when x is not listed. */
  lemma RetagList(m: map<int, int>, head: int, fl: seq<int>, blocks: map<int, Block>, x: int, a: bool)
    requires ListOk(m, head, fl) && NodesAreBlocks(blocks, fl) && Disjoint(blocks) && Big(blocks)
    requires x in blocks && x !in fl
    ensures ListOk(RetagWrites(m, x, blocks[x].size, a), head, fl)
  {
    var m2 := RetagWrites(m, x, blocks[x].size, a);
    forall i | 0 <= i < |fl|
      ensures Get(m2, fl[i]) == Get(m, fl[i]) && Get(m2, fl[i] + 8) == Get(m, fl[i] + 8)
    {
      var n := fl[i];
      if n < x {
        assert Apart(blocks, n, x);
      } else {
        assert Apart(blocks, x, n);
      }
    }
    LinksFrame(m, m2, head, fl);
  }

  /** Rewriting an unlisted block's allocated bit keeps the tags and the list. */
  lemma RetagStep(m: map<int, int>, pages: map<int, int>, blocks: map<int, Block>, head: int, fl: seq<int>, x: int, a: bool)
    requires Core(m, pages, blocks) && ListOk(m, head, fl) && NodesAreBlocks(blocks, fl)
    requires x in blocks && x !in fl
    ensures Core(RetagWrites(m, x, blocks[x].size, a), pages, RetagMap(blocks, x, a))
    ensures ListOk(RetagWrites(m, x, blocks[x].size, a), head, fl)
  {
    LayoutOf(pages, blocks);
    RetagControl(m, pages, blocks, x, a);
    RetagCore(m, RetagWrites(m, x, blocks[x].size, a), pages, blocks, x, a);
    RetagList(m, head, fl, blocks, x, a);
  }

  // ---------------------------------------------------------------------------
  // Splitting a block (set_allocated)
  // ---------------------------------------------------------------------------

  /** The four words set_allocated writes when it splits b: b's header and footer, then the remainder's. */
  function SplitWrites(m: map<int, int>, b: int, preSize: nat, size: nat): map<int, int>
    requires size <= preSize
  {
    var left := preSize - size;
    m[b - 8 := Pack(size, 1)][b + size - 16 := Pack(size, 1)][b + size - 8 := Pack(left, 0)][b + preSize - 16 := Pack(left, 0)]
  }

  /** The allocated front part of a split. */
  function Front(blk: Block, size: nat): Block
  {
    Block(size, true, blk.page)
  }

  /** The free remainder of a split. */
  function Rest(blk: Block, size: nat): Block
    requires size <= blk.size
  {
    Block(blk.size - size, false, blk.page)
  }

  /** The split writes stay inside b. */
  lemma SplitControl(m: map<int, int>, pages: map<int, int>, blocks: map<int, Block>, b: int, size: nat)
    requires Layout(pages, blocks) && b in blocks && 32 <= size && blocks[b].size - size > 32
    ensures SameControl(m, SplitWrites(m, b, blocks[b].size, size), pages, blocks - {b})
  {
    var s := blocks[b].size;
    var w := {b - 8, b + size - 16, b + size - 8, b + s - 16};
    var m4 := SplitWrites(m, b, s, size);
    assert Agree(m, m4, w);
    SpanControl(m, m4, pages, blocks, b, b, w, blocks - {b});
  }

  /** The split writes leave the two new tags in place. */
  lemma SplitWords(m: map<int, int>, b: int, preSize: nat, size: nat)
    requires 32 <= size && preSize - size > 32
    ensures var m4 := SplitWrites(m, b, preSize, size);
      && Get(m4, b - 8) == Pack(size, 1) && Get(m4, b + size - 16) == Pack(size, 1)
      && Get(m4, b + size - 8) == Pack(preSize - size, 0) && Get(m4, b + preSize - 16) == Pack(preSize - size, 0)
  {
  }

  /** The split writes miss every list node when b is not listed. */
  lemma SplitList(m: map<int, int>, head: int, fl: seq<int>, blocks: map<int, Block>, b: int, size: nat)
    requires ListOk(m, head, fl) && NodesAreBlocks(blocks, fl) && Disjoint(blocks) && Big(blocks)
    requires b in blocks && b !in fl && 32 <= size && blocks[b].size - size > 32
    ensures ListOk(SplitWrites(m, b, blocks[b].size, size), head, fl)
  {
    var m4 := SplitWrites(m, b, blocks[b].size, size);
    forall i | 0 <= i < |fl|
      ensures Get(m4, fl[i]) == Get(m, fl[i]) && Get(m4, fl[i] + 8) == Get(m, fl[i] + 8)
    {
      var n := fl[i];
      if n < b {
        assert Apart(blocks, n, b);
      } else {
        assert Apart(blocks, b, n);
      }
    }
    LinksFrame(m, m4, head, fl);
  }

  /** What the split writes leave: the control words outside b, and the tags of the two halves. */
  lemma SplitWritten(m: map<int, int>, pages: map<int, int>, blocks: map<int, Block>, b: int, size: nat)
    requires Layout(pages, blocks) && b in blocks && 32 <= size && blocks[b].size - size > 32
    ensures SameControl(m, SplitWrites(m, b, blocks[b].size, size), pages, blocks - {b})
    ensures Get(SplitWrites(m, b, blocks[b].size, size), b - 8) == Tag(Front(blocks[b], size))
    ensures Get(SplitWrites(m, b, blocks[b].size, size), b + size - 16) == Tag(Front(blocks[b], size))
    ensures Get(SplitWrites(m, b, blocks[b].size, size), b + size - 8) == Tag(Rest(blocks[b], size))
    ensures Get(SplitWrites(m, b, blocks[b].size, size), b + blocks[b].size - 16) == Tag(Rest(blocks[b], size))
  {
    SplitControl(m, pages, blocks, b, size);
    SplitWords(m, b, blocks[b].size, size);
  }

  /** Cutting `size` bytes off the front of b gives two well-shaped halves, and the cut is not a block yet. */
  lemma SplitShape(blocks: map<int, Block>, b: int, size: nat)
    requires b in blocks && size >= 32 && size % 16 == 0 && blocks[b].size - size > 32
    ensures SplitsInto(blocks, b, Front(blocks[b], size), Rest(blocks[b], size))
  {
  }

  /** The split point of set_allocated is not yet a block. */
  lemma SplitPointFree(blocks: map<int, Block>, b: int, size: nat)
    requires Disjoint(blocks) && b in blocks && size >= 32 && size % 16 == 0 && blocks[b].size - size > 32
    ensures b + size !in blocks
  {
    SplitShape(blocks, b, size);
    SplitPointFresh(blocks, b, Front(blocks[b], size), Rest(blocks[b], size));
  }

  /** Where set_allocated splits block `b`: an aligned address that is no block and no list node yet, and a block after the split. */
  lemma SplitPoint(blocks: map<int, Block>, fl: seq<int>, b: int, size: nat, c: int)
    requires Disjoint(blocks) && NodesAreBlocks(blocks, fl)
    requires b in blocks && b > 0 && b % 16 == 0 && size >= 32 && size % 16 == 0 && blocks[b].size - size > 32 && c == b + size
    ensures c > 0 && c % 16 == 0 && c !in blocks && c !in fl
    ensures c in SplitMap(blocks, b, Front(blocks[b], size), Rest(blocks[b], size))
  {
    SplitPointFree(blocks, b, size);
    AlignedSum(b, size);
  }

  /** Splitting an unlisted block keeps the tags and the list. */
  lemma SplitStep(m: map<int, int>, pages: map<int, int>, blocks: map<int, Block>, head: int, fl: seq<int>, b: int, size: nat)
    requires Core(m, pages, blocks) && ListOk(m, head, fl) && NodesAreBlocks(blocks, fl)
    requires b in blocks && b !in fl && size >= 32 && size % 16 == 0 && blocks[b].size - size > 32
    ensures Core(SplitWrites(m, b, blocks[b].size, size), pages, SplitMap(blocks, b, Front(blocks[b], size), Rest(blocks[b], size)))
    ensures ListOk(SplitWrites(m, b, blocks[b].size, size), head, fl)
  {
    LayoutOf(pages, blocks);
    SplitShape(blocks, b, size);
    SplitStepCore(m, pages, blocks, b, size);
    SplitList(m, head, fl, blocks, b, size);
  }

  /** The boundary-tag half of SplitStep. */
  lemma SplitStepCore(m: map<int, int>, pages: map<int, int>, blocks: map<int, Block>, b: int, size: nat)
    requires Core(m, pages, blocks) && Layout(pages, blocks)
    requires b in blocks && size >= 32 && blocks[b].size - size > 32
    requires SplitsInto(blocks, b, Front(blocks[b], size), Rest(blocks[b], size))
    ensures Core(SplitWrites(m, b, blocks[b].size, size), pages, SplitMap(blocks, b, Front(blocks[b], size), Rest(blocks[b], size)))
  {
    SplitWritten(m, pages, blocks, b, size);
    SplitCore(m, SplitWrites(m, b, blocks[b].size, size), pages, blocks, b, Front(blocks[b], size), Rest(blocks[b], size));
  }

  // ---------------------------------------------------------------------------
  // Merging neighbours (coalesce)
  // ---------------------------------------------------------------------------

  /** The two words coalesce writes when block x absorbs what follows it: x's header, and the footer at the end of the merged span. */
  function MergeWrites(m: map<int, int>, x: int, size: nat): map<int, int>
  {
    m[x - 8 := Pack(size, 0)][x + size - 16 := Pack(size, 0)]
  }

  /** The merge writes: the header in x, the footer in block y that ends the merged span; they leave the merged tag in place. */
  lemma MergeControl(m: map<int, int>, pages: map<int, int>, blocks: map<int, Block>, x: int, y: int, size: nat, keep: map<int, Block>)
    requires Layout(pages, blocks) && x in blocks && y in blocks && x <= y && blocks[x].page == blocks[y].page
    requires x + size == y + blocks[y].size
    requires forall bp :: bp in keep ==> bp in blocks && keep[bp] == blocks[bp] && (bp < x || y < bp)
    ensures SameControl(m, MergeWrites(m, x, size), pages, keep)
    ensures Get(MergeWrites(m, x, size), x - 8) == Pack(size, 0)
    ensures Get(MergeWrites(m, x, size), x + size - 16) == Pack(size, 0)
  {
    var w := {x - 8, x + size - 16};
    var m2 := MergeWrites(m, x, size);
    assert Agree(m, m2, w);
    SpanControl(m, m2, pages, blocks, x, y, w, keep);
  }

  /** The merge writes miss every list node when y, whose footer they rewrite, is not listed. */
  lemma MergeList(m: map<int, int>, head: int, fl: seq<int>, blocks: map<int, Block>, x: int, y: int, size: nat)
    requires ListOk(m, head, fl) && NodesAreBlocks(blocks, fl) && Disjoint(blocks) && Big(blocks)
    requires x in blocks && y in blocks && x <= y && y !in fl && x + size == y + blocks[y].size
    ensures ListOk(MergeWrites(m, x, size), head, fl)
  {
    var m2 := MergeWrites(m, x, size);
    forall i | 0 <= i < |fl|
      ensures Get(m2, fl[i]) == Get(m, fl[i]) && Get(m2, fl[i] + 8) == Get(m, fl[i] + 8)
    {
      var n := fl[i];
      if n < x {
        assert Apart(blocks, n, x);
      } else if y < n {
        assert Apart(blocks, y, n);
      } else if x < n {
        assert Apart(blocks, n, y);
      }
    }
    LinksFrame(m, m2, head, fl);
  }

  /** When x absorbs its neighbour y, every other block lies outside the two. */
  lemma MergeKeep(blocks: map<int, Block>, x: int)
    requires Disjoint(blocks) && HasNext(blocks, x)
    ensures var y := x + blocks[x].size;
      forall bp :: bp in blocks - {x, y} ==> bp in blocks && (blocks - {x, y})[bp] == blocks[bp] && (bp < x || y < bp)
  {
    var y := x + blocks[x].size;
    forall bp | bp in blocks - {x, y}
      ensures bp < x || y < bp
    {
      BlockOrder(blocks, x, bp);
    }
  }

  /** The shape of a three-way merge: p, then x, then n, in one page, and the merged block. */
  lemma Merge3Shape(blocks: map<int, Block>, p: int)
    requires HasNext(blocks, p) && HasNext(MergeMap(blocks, p), p)
    ensures p + blocks[p].size in blocks && p + MergeMap(blocks, p)[p].size in blocks
    ensures p + MergeMap(blocks, p)[p].size == p + blocks[p].size + blocks[p + blocks[p].size].size
    ensures blocks[p + MergeMap(blocks, p)[p].size].page == blocks[p].page
    ensures MergeMap(MergeMap(blocks, p), p)[p].size
         == blocks[p].size + blocks[p + blocks[p].size].size + blocks[p + MergeMap(blocks, p)[p].size].size
    ensures !MergeMap(MergeMap(blocks, p), p)[p].isAllocated
  {
    var x := p + blocks[p].size;
    var nb := MergeMap(blocks, p);
    var n := p + nb[p].size;
    assert nb[p] == Block(blocks[p].size + blocks[x].size, false, blocks[p].page);
    assert n == x + blocks[x].size && n in blocks && nb[n] == blocks[n];
  }

  /** When x absorbs y, the block after it, the merged block spans both. */
  lemma MergedSize(blocks: map<int, Block>, x: int, y: int)
    requires HasNext(blocks, x) && x + blocks[x].size == y
    ensures y in blocks && x < y && MergeMap(blocks, x)[x].size == blocks[x].size + blocks[y].size
  {
  }

  /** When p has absorbed the block after it and then absorbs y, the merged block ends where y ends. */
  lemma Merged3Size(blocks: map<int, Block>, p: int, y: int)
    requires HasNext(blocks, p) && HasNext(MergeMap(blocks, p), p) && p + MergeMap(blocks, p)[p].size == y
    ensures y in blocks && p < y && p + MergeMap(MergeMap(blocks, p), p)[p].size == y + blocks[y].size
  {
    Merge3Shape(blocks, p);
  }

  /** What the merge writes leave when x absorbs its neighbour: the other control words, and the merged tag. */
  lemma MergeWritten(m: map<int, int>, pages: map<int, int>, blocks: map<int, Block>, x: int)
    requires Layout(pages, blocks) && HasNext(blocks, x)
    ensures SameControl(m, MergeWrites(m, x, MergeMap(blocks, x)[x].size), pages, blocks - {x, x + blocks[x].size})
    ensures Get(MergeWrites(m, x, MergeMap(blocks, x)[x].size), x - 8) == Tag(MergeMap(blocks, x)[x])
    ensures Get(MergeWrites(m, x, MergeMap(blocks, x)[x].size), x + MergeMap(blocks, x)[x].size - 16)
         == Tag(MergeMap(blocks, x)[x])
  {
    var y := x + blocks[x].size;
    MergeKeep(blocks, x);
    MergeControl(m, pages, blocks, x, y, MergeMap(blocks, x)[x].size, blocks - {x, y});
  }

  /** coalesce when x (or the free block before it) absorbs the one block after it, which is not listed. */
  lemma MergeStep(m: map<int, int>, pages: map<int, int>, blocks: map<int, Block>, head: int, fl: seq<int>, x: int, y: int)
    requires Core(m, pages, blocks) && ListOk(m, head, fl) && NodesAreBlocks(blocks, fl)
    requires HasNext(blocks, x) && x + blocks[x].size == y && y !in fl
    ensures Core(MergeWrites(m, x, MergeMap(blocks, x)[x].size), pages, MergeMap(blocks, x))
    ensures ListOk(MergeWrites(m, x, MergeMap(blocks, x)[x].size), head, fl)
  {
    LayoutOf(pages, blocks);
    var size := MergeMap(blocks, x)[x].size;
    MergeWritten(m, pages, blocks, x);
    MergeCore(m, MergeWrites(m, x, size), pages, blocks, x);
    MergedSize(blocks, x, y);
    MergeList(m, head, fl, blocks, x, y, size);
  }

  /** What the merge writes leave when p absorbs x and n, the two blocks after it: the other control words, and the merged tag. */
  lemma MergeBothWritten(m: map<int, int>, pages: map<int, int>, blocks: map<int, Block>, p: int, x: int, n: int, size: nat)
    requires Layout(pages, blocks) && p in blocks && x in blocks && n in blocks
    requires x == p + blocks[p].size && n == x + blocks[x].size && blocks[n].page == blocks[p].page
    requires size == blocks[p].size + blocks[x].size + blocks[n].size
    ensures SameControl(m, MergeWrites(m, p, size), pages, blocks - {p, x, n})
    ensures Get(MergeWrites(m, p, size), p - 8) == Pack(size, 0)
    ensures Get(MergeWrites(m, p, size), p + size - 16) == Pack(size, 0)
  {
    forall bp | bp in blocks - {p, x, n}
      ensures bp < p || n < bp
    {
      BlockOrder(blocks, p, bp);
      BlockOrder(blocks, x, bp);
    }
    MergeControl(m, pages, blocks, p, n, size, blocks - {p, x, n});
  }

  /** coalesce with both neighbours free: the previous block p absorbs the unlisted block after it and the one after that (which left the list). */
  lemma MergeBothStep(m: map<int, int>, pages: map<int, int>, blocks: map<int, Block>, head: int, fl: seq<int>, p: int, y: int)
    requires Core(m, pages, blocks) && ListOk(m, head, fl) && NodesAreBlocks(blocks, fl)
    requires HasNext(blocks, p) && HasNext(MergeMap(blocks, p), p)
    requires p + MergeMap(blocks, p)[p].size == y && y !in fl
    ensures Core(MergeWrites(m, p, MergeMap(MergeMap(blocks, p), p)[p].size), pages, MergeMap(MergeMap(blocks, p), p))
    ensures ListOk(MergeWrites(m, p, MergeMap(MergeMap(blocks, p), p)[p].size), head, fl)
  {
    LayoutOf(pages, blocks);
    MergeBothCore(m, pages, blocks, p);
    MergeBothList(m, pages, blocks, head, fl, p, y);
  }

  /** The boundary-tag half of MergeBothStep. */
  lemma MergeBothCore(m: map<int, int>, pages: map<int, int>, blocks: map<int, Block>, p: int)
    requires Core(m, pages, blocks) && Layout(pages, blocks)
    requires HasNext(blocks, p) && HasNext(MergeMap(blocks, p), p)
    ensures Core(MergeWrites(m, p, MergeMap(MergeMap(blocks, p), p)[p].size), pages, MergeMap(MergeMap(blocks, p), p))
  {
    MergeBothTags(m, pages, blocks, p);
    Merge3Core(m, MergeWrites(m, p, MergeMap(MergeMap(blocks, p), p)[p].size), pages, blocks, p);
  }

  /** The three-way merge writes, stated over the block maps before and after. */
  lemma MergeBothTags(m: map<int, int>, pages: map<int, int>, blocks: map<int, Block>, p: int)
    requires Layout(pages, blocks) && HasNext(blocks, p) && HasNext(MergeMap(blocks, p), p)
    ensures SameControl(m, MergeWrites(m, p, MergeMap(MergeMap(blocks, p), p)[p].size), pages,
                        blocks - {p, p + blocks[p].size, p + MergeMap(blocks, p)[p].size})
    ensures Get(MergeWrites(m, p, MergeMap(MergeMap(blocks, p), p)[p].size), p - 8)
         == Tag(MergeMap(MergeMap(blocks, p), p)[p])
    ensures Get(MergeWrites(m, p, MergeMap(MergeMap(blocks, p), p)[p].size), p + MergeMap(MergeMap(blocks, p), p)[p].size - 16)
         == Tag(MergeMap(MergeMap(blocks, p), p)[p])
  {
    Merge3Shape(blocks, p);
    MergeBothWritten(m, pages, blocks, p, p + blocks[p].size, p + MergeMap(blocks, p)[p].size,
                     MergeMap(MergeMap(blocks, p), p)[p].size);
  }

  /** The free-list half of MergeBothStep. */
  lemma MergeBothList(m: map<int, int>, pages: map<int, int>, blocks: map<int, Block>, head: int, fl: seq<int>, p: int, y: int)
    requires ListOk(m, head, fl) && NodesAreBlocks(blocks, fl) && Layout(pages, blocks)
    requires HasNext(blocks, p) && HasNext(MergeMap(blocks, p), p)
    requires p + MergeMap(blocks, p)[p].size == y && y !in fl
    ensures ListOk(MergeWrites(m, p, MergeMap(MergeMap(blocks, p), p)[p].size), head, fl)
  {
    Merged3Size(blocks, p, y);
    MergeList(m, head, fl, blocks, p, y, MergeMap(MergeMap(blocks, p), p)[p].size);
  }

  // ---------------------------------------------------------------------------
  // Laying out a fresh page (extend)
  // ---------------------------------------------------------------------------

  /** The six words extend writes into a fresh page of `size` bytes at `base`: padding, prolog header and footer, the block's header and footer, the terminator. */
  function PageWrites(m: map<int, int>, base: int, size: int): map<int, int>
    requires size >= 32
  {
    m[base := 0][base + 8 := Pack(16, 1)][base + 16 := Pack(16, 1)][base + 24 := Pack(size - 32, 0)]
     [base + size - 16 := Pack(size - 32, 0)][base + size - 8 := Pack(0, 1)]
  }

  /** One write into a fresh page. */
  lemma PageWrite(m: map<int, int>, pages: map<int, int>, blocks: map<int, Block>, base: int, size: int, a: int, v: int)
    requires PagesShaped(pages) && Placed(pages, blocks) && Big(blocks)
    requires Fresh(pages, base, size) && base <= a < base + size
    ensures SameControl(m, m[a := v], pages, blocks)
  {
    FreshOutside(pages, base, size, a);
    OutsideWrite(m, pages, blocks, a, v);
  }

  /** The page writes keep every control word of the other pages. */
  lemma PageControl(m: map<int, int>, pages: map<int, int>, blocks: map<int, Block>, base: int, size: int)
    requires PagesShaped(pages) && Placed(pages, blocks) && Big(blocks)
    requires Fresh(pages, base, size) && size >= 64
    ensures SameControl(m, PageWrites(m, base, size), pages, blocks)
  {
    var m1 := m[base := 0];
    var m2 := m1[base + 8 := Pack(16, 1)];
    var m3 := m2[base + 16 := Pack(16, 1)];
    var m4 := m3[base + 24 := Pack(size - 32, 0)];
    var m5 := m4[base + size - 16 := Pack(size - 32, 0)];
    var m6 := m5[base + size - 8 := Pack(0, 1)];
    PageWrite(m, pages, blocks, base, size, base, 0);
    PageWrite(m1, pages, blocks, base, size, base + 8, Pack(16, 1));
    PageWrite(m2, pages, blocks, base, size, base + 16, Pack(16, 1));
    PageWrite(m3, pages, blocks, base, size, base + 24, Pack(size - 32, 0));
    PageWrite(m4, pages, blocks, base, size, base + size - 16, Pack(size - 32, 0));
    PageWrite(m5, pages, blocks, base, size, base + size - 8, Pack(0, 1));
    ControlTrans(m, m1, m2, pages, blocks);
    ControlTrans(m, m2, m3, pages, blocks);
    ControlTrans(m, m3, m4, pages, blocks);
    ControlTrans(m, m4, m5, pages, blocks);
    ControlTrans(m, m5, m6, pages, blocks);
  }

  /** The page writes miss every list node: list nodes lie in other pages. */
  lemma PageList(m: map<int, int>, head: int, fl: seq<int>, pages: map<int, int>, blocks: map<int, Block>, base: int, size: int)
    requires ListOk(m, head, fl) && NodesAreBlocks(blocks, fl) && Placed(pages, blocks) && Big(blocks)
    requires Fresh(pages, base, size) && size >= 64
    ensures ListOk(PageWrites(m, base, size), head, fl)
  {
    var m6 := PageWrites(m, base, size);
    forall i | 0 <= i < |fl|
      ensures Get(m6, fl[i]) == Get(m, fl[i]) && Get(m6, fl[i] + 8) == Get(m, fl[i] + 8)
    {
      var n := fl[i];
      assert InPage(pages, n, blocks[n]);
      var b := blocks[n].page;
      assert b + pages[b] <= base || base + size <= b;
    }
    LinksFrame(m, m6, head, fl);
  }

  /** Laying out a fresh page keeps the tags and the list and adds the page and its block. */
  lemma PageStep(m: map<int, int>, pages: map<int, int>, blocks: map<int, Block>, head: int, fl: seq<int>, base: int, size: int)
    requires Core(m, pages, blocks) && ListOk(m, head, fl) && NodesAreBlocks(blocks, fl)
    requires Fresh(pages, base, size) && size % 16 == 0 && size >= 64
    ensures Core(PageWrites(m, base, size), pages[base := size], AddPageMap(blocks, base, size))
    ensures ListOk(PageWrites(m, base, size), head, fl)
  {
    LayoutOf(pages, blocks);
    PageControl(m, pages, blocks, base, size);
    AddPageCore(m, PageWrites(m, base, size), pages, blocks, base, size);
    PageList(m, head, fl, pages, blocks, base, size);
  }
}
