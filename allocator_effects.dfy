/// What each function of Allocator/mm.c does to the words and to
/// `list_header`, written as functions that follow the source statement by
/// statement: every address is computed from the words as they are when the
/// source computes it (FTRP after a header write reads the new header,
/// remove_list_node reads `next` and `pre` again after its first write).  The
/// methods of Allocator.Heap are proved equal to these functions; the lemmas
/// here give the closed forms (AllocatorList, AllocatorSteps) that the heap
/// invariant lemmas of AllocatorOps are stated with.
module AllocatorEffects {
  import opened AllocatorCodec
  import opened AllocatorHeap
  import opened AllocatorList
  import opened AllocatorSteps
  import opened AllocatorReads

  /** The state the allocator's functions change: the mapped words and `list_header`. */
  datatype State = State(mem: map<int, int>, head: int)

  datatype Option<T> = None | Some(value: T)

  /** 2^64: `size_t` arithmetic wraps modulo this. */
  const SIZE_RANGE: int := 0x1_0000_0000_0000_0000

  /** `a - b` on `size_t`: a negative difference wraps around modulo 2^64.  (Words are not bounded above in this
    * model, so only this wrap is written out.) */
  function SizeDiff(a: nat, b: nat): (r: nat)
    ensures b <= a ==> r == a - b
    ensures a < b ==> r < SIZE_RANGE && r == a - b + SIZE_RANGE * ((b - a - 1) / SIZE_RANGE + 1)
  {
    if b <= a then a - b else (a - b) % SIZE_RANGE
  }

  // ---------------------------------------------------------------------------
  // The free list
  // ---------------------------------------------------------------------------

  /** add_list_node(bp). */
  function AddNode(s: State, bp: int): State
  {
    State(Pushed(s.mem, s.head, bp), bp)
  }

  /** remove_list_node(bp): the head moves on if it was bp; bp's successor gets bp's `pre`, then bp's predecessor,
    * read again, gets bp's `next`, read again. */
  function RemoveNode(s: State, bp: int): State
  {
    var head := if s.head == bp then Get(s.mem, bp + 8) else s.head;
    var m1 := if Get(s.mem, bp + 8) != 0 then s.mem[Get(s.mem, bp + 8) := Get(s.mem, bp)] else s.mem;
    var m2 := if Get(m1, bp) != 0 then m1[Get(m1, bp) + 8 := Get(m1, bp + 8)] else m1;
    State(m2, head)
  }

  /** On a well-linked list the second reads see the first ones, so remove_list_node writes Unlinked. */
  lemma RemoveNodeUnlinks(m: map<int, int>, head: int, fl: seq<int>, k: nat)
    requires ListOk(m, head, fl) && k < |fl|
    ensures RemoveNode(State(m, head), fl[k]) == State(Unlinked(m, fl[k]), HeadAfterUnlink(m, head, fl[k]))
  {
    ListLinks(m, head, fl, k);
  }

  /** first_fit over the list `fl`, head to tail: the first node whose header's size is at least `s`, or NULL. */
  function FirstFitIn(m: map<int, int>, fl: seq<int>, s: int): (p: int)
    ensures p == 0 || p in fl
    ensures p != 0 ==> GetSize(Get(m, p - 8)) >= s
  {
    if fl == [] then 0
    else if GetSize(Get(m, fl[0] - 8)) >= s then fl[0]
    else FirstFitIn(m, fl[1..], s)
  }

  // ---------------------------------------------------------------------------
  // set_allocated
  // ---------------------------------------------------------------------------

  /** set_allocated(b, size): b leaves the list; if more than PAGE_OVERHEAD bytes would be left (the subtraction is
    * size_t), b's tags say `size` and the rest becomes a free block pushed onto the list, else b's tags keep its size. */
  function Allocate(s: State, b: int, size: nat): State
  {
    var preSize := GetSize(Get(s.mem, Hdrp(b)));
    var left := SizeDiff(preSize, size);
    var r := RemoveNode(s, b);
    if left > PAGE_OVERHEAD then
      var m1 := r.mem[Hdrp(b) := Pack(size, 1)];
      var m2 := m1[Ftrp(m1, b) := Pack(size, 1)];
      var m3 := m2[Hdrp(NextBlkp(m2, b)) := Pack(left, 0)];
      var m4 := m3[Ftrp(m3, NextBlkp(m3, b)) := Pack(left, 0)];
      AddNode(State(m4, r.head), NextBlkp(m4, b))
    else
      var m1 := r.mem[Hdrp(b) := Pack(preSize, 1)];
      State(m1[Ftrp(m1, b) := Pack(preSize, 1)], r.head)
  }

  /** set_allocated with a split, on a list node that holds `size` and more than PAGE_OVERHEAD bytes besides. */
  lemma AllocateSplitForm(m: map<int, int>, head: int, fl: seq<int>, k: nat, size: nat, c: int)
    requires ListOk(m, head, fl) && k < |fl|
    requires size >= 32 && size % 16 == 0 && GetSize(Get(m, fl[k] - 8)) - size > PAGE_OVERHEAD && c == fl[k] + size
    ensures var b, preSize := fl[k], GetSize(Get(m, fl[k] - 8));
      Allocate(State(m, head), b, size) == State(Pushed(SplitWrites(Unlinked(m, b), b, preSize, size), HeadAfterUnlink(m, head, b), c), c)
  {
    var b, preSize := fl[k], GetSize(Get(m, fl[k] - 8));
    RemoveNodeUnlinks(m, head, fl, k);
    SizeMask(Get(m, b - 8));
    AlignedDiff(preSize, size);
    SplitAsRead(Unlinked(m, b), b, preSize, size);
  }

  /** set_allocated without a split: the whole list node is allocated. */
  lemma AllocateWholeForm(m: map<int, int>, head: int, fl: seq<int>, k: nat, size: nat)
    requires ListOk(m, head, fl) && k < |fl|
    requires size <= GetSize(Get(m, fl[k] - 8)) <= size + PAGE_OVERHEAD
    ensures var b, preSize := fl[k], GetSize(Get(m, fl[k] - 8));
      Allocate(State(m, head), b, size) == State(RetagWrites(Unlinked(m, b), b, preSize, true), HeadAfterUnlink(m, head, b))
  {
    var b, preSize := fl[k], GetSize(Get(m, fl[k] - 8));
    RemoveNodeUnlinks(m, head, fl, k);
    if Get(m, b - 8) >= 0 {
      SizeMask(Get(m, b - 8));
    }
    RetagAsRead(Unlinked(m, b), b, preSize, 1);
  }

  /** set_allocated's split writes, each address read from the words written before it, are SplitWrites. */
  lemma SplitAsRead(m: map<int, int>, b: int, preSize: nat, size: nat)
    requires size >= 32 && size % 16 == 0 && size <= preSize && (preSize - size) % 16 == 0
    ensures
      var m1 := m[Hdrp(b) := Pack(size, 1)];
      var m2 := m1[Ftrp(m1, b) := Pack(size, 1)];
      var m3 := m2[Hdrp(NextBlkp(m2, b)) := Pack(preSize - size, 0)];
      var m4 := m3[Ftrp(m3, NextBlkp(m3, b)) := Pack(preSize - size, 0)];
      NextBlkp(m4, b) == b + size && m4 == SplitWrites(m, b, preSize, size)
  {
    PackUnpack(size, 1);
    PackUnpack(preSize - size, 0);
  }

  /** A header write and then a footer write found from that header are RetagWrites. */
  lemma RetagAsRead(m: map<int, int>, x: int, size: nat, alloc: nat)
    requires size % 16 == 0 && alloc <= 1
    ensures
      var m1 := m[Hdrp(x) := Pack(size, alloc)];
      m1[Ftrp(m1, x) := Pack(size, alloc)] == RetagWrites(m, x, size, alloc == 1)
  {
    PackUnpack(size, alloc);
  }

  // ---------------------------------------------------------------------------
  // extend
  // ---------------------------------------------------------------------------

  /** extend's `init_size`: room for twice the last page and a prolog, page-aligned. */
  function InitSize(initialPage: nat, ps: nat): nat
    requires ps > 0
  {
    PageAlign(initialPage * 2 + PAGE_OVERHEAD, ps)
  }

  /** The size extend asks the page provider for: it always holds the last `initial_page` and a prolog. */
  function ExtendSize(initialPage: nat, ps: nat): (r: nat)
    requires ps > 0
    ensures r >= initialPage + PAGE_OVERHEAD
  {
    if InitSize(initialPage, ps) >= ALLOC_GRANULARITY * 100 then PageAlign(initialPage + PAGE_OVERHEAD, ps)
    else PageAlign(InitSize(initialPage, ps) + PAGE_OVERHEAD, ps)
  }

  /** `initial_page` after extend: the new page size while pages still grow, unchanged after. */
  function NextInitialPage(initialPage: nat, ps: nat): nat
    requires ps > 0
  {
    if InitSize(initialPage, ps) >= ALLOC_GRANULARITY * 100 then initialPage else ExtendSize(initialPage, ps)
  }

  /** A positive multiple of `ps` is at least `ps`. */
  lemma PositiveMultiple(r: int, ps: int)
    requires ps > 0 && r > 0 && r % ps == 0
    ensures r >= ps
  {
    var q := r / ps;
    assert r == ps * q;
    if q <= 0 {
      if q < 0 {
        MulSign(ps, q);
      }
      assert false;
    }
    MulSign(ps, q);
  }

  /** A multiple of a multiple of 16 is a multiple of 16. */
  lemma MultipleAligned(r: int, ps: int)
    requires ps > 0 && r % ps == 0 && ps % ALIGNMENT == 0
    ensures r % ALIGNMENT == 0
  {
    var q, t := r / ps, ps / 16;
    assert r == ps * q;
    assert ps == 16 * t;
    assert r == 16 * (t * q);
    DivMod(r, 16, t * q, 0);
  }

  /** Every page extend maps is a multiple of the page size, 16-aligned in length and at least a page long. */
  lemma {:induction false} ExtendSizeShape(initialPage: nat, ps: nat)
    requires PowerOfTwo(ps) && ps >= ALLOC_GRANULARITY
    ensures ExtendSize(initialPage, ps) % ps == 0
    ensures ExtendSize(initialPage, ps) % ALIGNMENT == 0
    ensures ExtendSize(initialPage, ps) >= ps
  {
    var r := ExtendSize(initialPage, ps);
    PositiveMultiple(r, ps);
    PowerOfTwoAligned(ps);
    MultipleAligned(r, ps);
  }

  /** While pages grow, each new page more than doubles the last; once they stop, a page is at most one page size
    * beyond `initial_page` and its prolog. */
  lemma ExtendGrowth(initialPage: nat, ps: nat)
    requires ps > 0
    ensures InitSize(initialPage, ps) < ALLOC_GRANULARITY * 100 ==>
      ExtendSize(initialPage, ps) >= 2 * initialPage + 2 * PAGE_OVERHEAD
    ensures InitSize(initialPage, ps) >= ALLOC_GRANULARITY * 100 ==>
      ExtendSize(initialPage, ps) < initialPage + PAGE_OVERHEAD + ps
  {
  }

  /** `initial_page` never decreases, and it stays below a bound fixed by the growth threshold and the page size. */
  lemma InitialPageBounded(initialPage: nat, ps: nat)
    requires ps > 0
    ensures NextInitialPage(initialPage, ps) >= initialPage
    ensures initialPage < ALLOC_GRANULARITY * 100 + PAGE_OVERHEAD + ps ==>
      NextInitialPage(initialPage, ps) < ALLOC_GRANULARITY * 100 + PAGE_OVERHEAD + ps
  {
  }

  /** extend(s) when the page provider maps the ExtendSize bytes at `base`: the prolog, the block's header, its footer
    * and the terminator (each found from the header just written), then the block is pushed; the second result is
    * the new `initial_page`. */
  function Extended(s: State, initialPage: nat, ps: nat, base: int): (State, nat)
    requires ps > 0
  {
    var size := ExtendSize(initialPage, ps);
    var m1 := s.mem[base := 0][base + 8 := Pack(16, 1)][base + 16 := Pack(16, 1)][base + 24 := Pack(size - PAGE_OVERHEAD, 0)];
    var bp := base + 32;
    var m2 := m1[Ftrp(m1, bp) := Pack(size - PAGE_OVERHEAD, 0)];
    var m3 := m2[Ftrp(m2, bp) + 8 := Pack(0, 1)];
    (AddNode(State(m3, s.head), bp), NextInitialPage(initialPage, ps))
  }

  /** extend writes PageWrites into the new page and pushes its one block. */
  lemma ExtendForm(m: map<int, int>, head: int, initialPage: nat, ps: nat, base: int)
    requires PowerOfTwo(ps) && ps >= ALLOC_GRANULARITY
    ensures var size := ExtendSize(initialPage, ps);
      && size % 16 == 0 && size >= ALLOC_GRANULARITY
      && Extended(State(m, head), initialPage, ps, base).0 == State(Pushed(PageWrites(m, base, size), head, base + 32), base + 32)
  {
    var size := ExtendSize(initialPage, ps);
    ExtendSizeShape(initialPage, ps);
    AlignedDiff(size, 32);
    PackUnpack(size - 32, 0);
  }

  // ---------------------------------------------------------------------------
  // coalesce and mm_free
  // ---------------------------------------------------------------------------

  /** coalesce(bp): reads the allocated bits of the blocks before and after bp and merges bp with the free ones;
    * returns the state and the payload of the merged block. */
  function Coalesced(s: State, bp: int): (State, int)
  {
    var m := s.mem;
    var preAlloc := GetAlloc(Get(m, Hdrp(PrevBlkp(m, bp))));
    var nextAlloc := GetAlloc(Get(m, Hdrp(NextBlkp(m, bp))));
    var size := GetSize(Get(m, Hdrp(bp)));
    if preAlloc == 0 && nextAlloc != 0 then
      var total := size + GetSize(Get(m, Hdrp(PrevBlkp(m, bp))));
      var m1 := m[Hdrp(PrevBlkp(m, bp)) := Pack(total, 0)];
      var m2 := m1[Ftrp(m1, bp) := Pack(total, 0)];
      (State(m2, s.head), PrevBlkp(m2, bp))
    else if preAlloc != 0 && nextAlloc == 0 then
      var total := size + GetSize(Get(m, Hdrp(NextBlkp(m, bp))));
      var r := RemoveNode(s, NextBlkp(m, bp));
      var m1 := r.mem[Hdrp(bp) := Pack(total, 0)];
      var m2 := m1[Ftrp(m1, bp) := Pack(total, 0)];
      (AddNode(State(m2, r.head), bp), bp)
    else if preAlloc != 0 && nextAlloc != 0 then
      (AddNode(s, bp), bp)
    else
      var total := size + GetSize(Get(m, Hdrp(PrevBlkp(m, bp)))) + GetSize(Get(m, Hdrp(NextBlkp(m, bp))));
      var r := RemoveNode(s, NextBlkp(m, bp));
      var m1 := r.mem[Hdrp(PrevBlkp(r.mem, bp)) := Pack(total, 0)];
      var m2 := m1[Ftrp(m1, NextBlkp(m1, bp)) := Pack(total, 0)];
      (State(m2, r.head), PrevBlkp(m2, bp))
  }

  /** coalesce with only the block p before x free: p's header and x's footer get the merged size, and the result is
    * p, read back through x's footer-before. */
  lemma CoalescePrevForm(m: map<int, int>, head: int, x: int, p: int, total: nat)
    requires GetAlloc(Get(m, PrevBlkp(m, x) - 8)) == 0 && GetAlloc(Get(m, NextBlkp(m, x) - 8)) != 0
    requires p == PrevBlkp(m, x) && p + GetSize(Get(m, p - 8)) == x
    requires GetSize(Get(m, p - 8)) >= 32 && GetSize(Get(m, x - 8)) >= 32
    requires total == GetSize(Get(m, p - 8)) + GetSize(Get(m, x - 8)) && total % 16 == 0
    ensures Coalesced(State(m, head), x) == (State(MergeWrites(m, p, total), head), p)
  {
  }

  /** coalesce with only the block n after x free: n leaves the list, x's tags get the merged size, x is pushed. */
  lemma CoalesceNextForm(m: map<int, int>, head: int, fl: seq<int>, k: nat, x: int, n: int, total: nat)
    requires ListOk(m, head, fl) && k < |fl| && fl[k] == n
    requires GetAlloc(Get(m, PrevBlkp(m, x) - 8)) != 0 && GetAlloc(Get(m, NextBlkp(m, x) - 8)) == 0
    requires n == NextBlkp(m, x)
    requires total == GetSize(Get(m, x - 8)) + GetSize(Get(m, n - 8)) && total % 16 == 0
    ensures Coalesced(State(m, head), x)
      == (State(Pushed(MergeWrites(Unlinked(m, n), x, total), HeadAfterUnlink(m, head, n), x), x), x)
  {
    RemoveNodeUnlinks(m, head, fl, k);
    PackUnpack(total, 0);
  }

  /** coalesce with both neighbours free: n leaves the list, p's header and n's footer get the merged size, and the
    * result is p.  The words coalesce reads after unlinking n (x's footer-before, x's and n's headers) are assumed
    * unchanged by the unlinking. */
  lemma CoalesceBothForm(m: map<int, int>, head: int, fl: seq<int>, k: nat, x: int, p: int, n: int, total: nat)
    requires ListOk(m, head, fl) && k < |fl| && fl[k] == n
    requires GetAlloc(Get(m, PrevBlkp(m, x) - 8)) == 0 && GetAlloc(Get(m, NextBlkp(m, x) - 8)) == 0
    requires p == PrevBlkp(m, x) && n == NextBlkp(m, x) && p + GetSize(Get(m, p - 8)) == x
    requires GetSize(Get(m, p - 8)) >= 32 && GetSize(Get(m, x - 8)) >= 32 && GetSize(Get(m, n - 8)) >= 32
    requires total == GetSize(Get(m, x - 8)) + GetSize(Get(m, p - 8)) + GetSize(Get(m, n - 8))
    requires total % 16 == 0
    requires var u := Unlinked(m, n);
      Get(u, x - 16) == Get(m, x - 16) && Get(u, x - 8) == Get(m, x - 8) && Get(u, n - 8) == Get(m, n - 8)
    ensures Coalesced(State(m, head), x) == (State(MergeWrites(Unlinked(m, n), p, total), HeadAfterUnlink(m, head, n)), p)
  {
    RemoveNodeUnlinks(m, head, fl, k);
  }

  /** mm_free(ptr): ptr's tags are marked free, the block is coalesced, and if the merged block fills its page it
    * leaves the list; the second result is the (address, length) passed to mem_unmap, if any. */
  function Released(s: State, ptr: int): (State, Option<(int, int)>)
  {
    ReleasePage(Coalesced(MarkedFree(s, ptr), ptr))
  }

  /** mm_free(ptr) with the whole-page test exactly as Allocator/mm.c writes it (see AllocatorFindings). */
  function ReleasedAsWritten(s: State, ptr: int): (State, Option<(int, int)>)
  {
    ReleasePageAsWritten(Coalesced(MarkedFree(s, ptr), ptr))
  }

  /** mm_free's first two writes: ptr's header, then the footer FTRP finds from it, get ptr's size marked free. */
  function MarkedFree(s: State, ptr: int): State
  {
    var ptrSize := GetSize(Get(s.mem, Hdrp(ptr)));
    var m1 := s.mem[Hdrp(ptr) := Pack(ptrSize, 0)];
    var m2 := m1[Ftrp(m1, ptr) := Pack(ptrSize, 0)];
    State(m2, s.head)
  }

  /** The end of mm_free, after coalesce returned state c.0 and block c.1: a block that fills its page leaves the
    * list and its page is handed to mem_unmap. */
  function ReleasePage(c: (State, int)): (State, Option<(int, int)>)
  {
    if WholePage(c.0.mem, c.1) then Unmapped(c) else (c.0, None)
  }

  /** The end of mm_free with the test of Allocator/mm.c:137, which reads the word three words before the payload. */
  function ReleasePageAsWritten(c: (State, int)): (State, Option<(int, int)>)
  {
    if WholePageAsWritten(c.0.mem, c.1) then Unmapped(c) else (c.0, None)
  }

  /** Block c.1 leaves the list, and mem_unmap gets its payload less PAGE_OVERHEAD and its size plus PAGE_OVERHEAD. */
  function Unmapped(c: (State, int)): (State, Option<(int, int)>)
  {
    var r := RemoveNode(c.0, c.1);
    (r, Some((c.1 - PAGE_OVERHEAD, GetSize(Get(r.mem, Hdrp(c.1))) + PAGE_OVERHEAD)))
  }

  /** mm_free's first two writes, each address read from the words written before it, are RetagWrites. */
  lemma ReleasedForm(m: map<int, int>, head: int, ptr: int, size: nat)
    requires GetSize(Get(m, Hdrp(ptr))) == size && size % 16 == 0
    ensures MarkedFree(State(m, head), ptr) == State(RetagWrites(m, ptr, size, false), head)
  {
    RetagAsRead(m, ptr, size, 0);
  }

  // ---------------------------------------------------------------------------
  // mm_malloc
  // ---------------------------------------------------------------------------

  /** mm_malloc(size): the first fit for ALIGN(size + OVERHEAD) is allocated; when there is none, extend maps a page
    * at `base` and its block, now the list head, is allocated.  Results: the state, `initial_page` and the payload. */
  function Malloc(s: State, initialPage: nat, ps: nat, fl: seq<int>, size: nat, base: int): (State, nat, int)
    requires ps > 0
  {
    var newSize := Align(size + OVERHEAD);
    var p := FirstFitIn(s.mem, fl, newSize);
    if p != 0 then
      (Allocate(s, p, newSize), initialPage, p)
    else
      var e := Extended(s, initialPage, ps, base);
      (Allocate(e.0, e.0.head, newSize), e.1, e.0.head)
  }
}
