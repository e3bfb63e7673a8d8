/// The allocator of Allocator/mm.c: the globals `list_header` and
/// `initial_page` and the mapped words become the fields of a `Heap`, and each
/// function of the source becomes a method that changes them, statement by
/// statement.  Each method's contract says that the new words and globals are
/// the ones the matching AllocatorEffects function computes; what those
/// functions do to a well-formed heap is proved in AllocatorTheorems.
///
/// The page provider (mem_map, mem_unmap, mem_pagesize) is not part of this
/// model: the page size is a constructor parameter, the page mem_map returns is
/// a method parameter, and mem_unmap's arguments are mm_free's result.
module Allocator {
  import opened AllocatorCodec
  import opened AllocatorHeap
  import opened AllocatorList
  import opened AllocatorReads
  import opened AllocatorEffects

  class Heap {
    /** The words of the mapped pages, by byte address; a word never written reads as 0. */
    var mem: map<int, int>
    /** `list_header`: the first node of the free list, or NULL (0). */
    var listHeader: int
    /** `initial_page`: the size of the last page mapped while page sizes still grew. */
    var initialPage: nat
    /** mem_pagesize(). */
    const pageSize: nat

    /** The words and `list_header`, as the AllocatorEffects functions take them. */
    function Words(): State
      reads this
    {
      State(mem, listHeader)
    }

    /** The page size is one the page provider can have: a power of two of at least ALLOC_GRANULARITY. */
    ghost predicate PageSizeOk()
    {
      PowerOfTwo(pageSize) && pageSize >= ALLOC_GRANULARITY
    }

    /** The program's start: no page mapped, both globals zero, which is a well-formed empty heap. */
    constructor (ps: nat)
      requires PowerOfTwo(ps) && ps >= ALLOC_GRANULARITY
      ensures pageSize == ps && PageSizeOk()
      ensures mem == map[] && listHeader == 0 && initialPage == 0
      ensures HeapOk(mem, listHeader, map[], map[], [])
    {
      mem, listHeader, initialPage, pageSize := map[], 0, 0, ps;
    }

    /** mm_init: empties the free list and nothing else. */
    method MmInit() returns (r: int)
      modifies this
      ensures r == 0 && Words() == State(old(mem), 0) && initialPage == old(initialPage)
    {
      listHeader := 0;
      r := 0;
    }

    /** add_list_node. */
    method AddListNode(bp: int)
      modifies this
      ensures Words() == AddNode(old(Words()), bp) && initialPage == old(initialPage)
    {
      mem := mem[bp + 8 := listHeader];
      mem := mem[bp := 0];
      if listHeader != 0 {
        mem := mem[listHeader := bp];
      }
      listHeader := bp;
    }

    /** remove_list_node. */
    method RemoveListNode(bp: int)
      modifies this
      ensures Words() == RemoveNode(old(Words()), bp) && initialPage == old(initialPage)
    {
      if listHeader == bp {
        listHeader := Get(mem, bp + 8);
      }
      if Get(mem, bp + 8) != 0 {
        mem := mem[Get(mem, bp + 8) := Get(mem, bp)];
      }
      if Get(mem, bp) != 0 {
        mem := mem[Get(mem, bp) + 8 := Get(mem, bp + 8)];
      }
    }

    /** first_fit: the first node of the free list, from `list_header`, whose block holds s bytes; `fl` names the
      * nodes of the list. */
    method FirstFit(s: nat, ghost fl: seq<int>) returns (p: int)
      requires ListOk(mem, listHeader, fl)
      ensures p == FirstFitIn(mem, fl, s)
    {
      LinkedFrom(mem, listHeader, fl, 0);
      assert fl[0..] == fl;
      p := ScanList(mem, listHeader, s, fl);
    }

    /** set_allocated. */
    method SetAllocated(b: int, size: nat)
      modifies this
      ensures Words() == Allocate(old(Words()), b, size) && initialPage == old(initialPage)
    {
      var preSize := GetSize(Get(mem, Hdrp(b)));
      var leftSize := SizeDiff(preSize, size);
      RemoveListNode(b);
      var m := mem;
      if leftSize > PAGE_OVERHEAD {
        m := m[Hdrp(b) := Pack(size, 1)];
        m := m[Ftrp(m, b) := Pack(size, 1)];
        m := m[Hdrp(NextBlkp(m, b)) := Pack(leftSize, 0)];
        m := m[Ftrp(m, NextBlkp(m, b)) := Pack(leftSize, 0)];
        mem := m;
        AddListNode(NextBlkp(m, b));
      } else {
        m := m[Hdrp(b) := Pack(preSize, 1)];
        m := m[Ftrp(m, b) := Pack(preSize, 1)];
        mem := m;
      }
    }

    /** extend: `base` is the page mem_map returns; `s` is unused, as in the source. */
    method Extend(s: nat, base: int)
      requires PageSizeOk()
      modifies this
      ensures (Words(), initialPage) == Extended(old(Words()), old(initialPage), pageSize, base)
    {
      ghost var before := initialPage;
      var size := GrowPage();
      LayOutPage(base, size, before);
    }

    /** extend's choice of the page size: the doubled page while it stays under 100 granules, which also becomes
      * `initial_page`, and a page just big enough for `initial_page` after that. */
    method GrowPage() returns (size: nat)
      requires PageSizeOk()
      modifies this
      ensures size == ExtendSize(old(initialPage), pageSize)
      ensures initialPage == NextInitialPage(old(initialPage), pageSize) && Words() == old(Words())
    {
      var initSize := PageAlign(initialPage * 2 + PAGE_OVERHEAD, pageSize);
      if initSize >= ALLOC_GRANULARITY * 100 {
        size := PageAlign(initialPage + PAGE_OVERHEAD, pageSize);
      } else {
        size := PageAlign(initSize + PAGE_OVERHEAD, pageSize);
        initialPage := size;
      }
    }

    /** extend's writes: the prolog and epilog of the new page of `size` bytes at `base`, its one free block, which
      * is pushed on the list. */
    method LayOutPage(base: int, size: nat, ghost page: nat)
      requires PageSizeOk() && size == ExtendSize(page, pageSize)
      modifies this
      ensures Words() == Extended(old(Words()), page, pageSize, base).0 && initialPage == old(initialPage)
    {
      var m := mem;
      var bp := base;
      m := m[bp := 0];
      bp := bp + 8;
      m := m[bp := Pack(16, 1)];
      bp := bp + 8;
      m := m[bp := Pack(16, 1)];
      bp := bp + 8;
      m := m[bp := Pack(size - PAGE_OVERHEAD, 0)];
      bp := bp + 8;
      m := m[Ftrp(m, bp) := Pack(size - PAGE_OVERHEAD, 0)];
      m := m[Ftrp(m, bp) + 8 := Pack(0, 1)];
      mem := m;
      AddListNode(bp);
    }

    /** coalesce: the result is the payload of the merged block. */
    method Coalesce(bp: int) returns (r: int)
      modifies this
      ensures (Words(), r) == Coalesced(old(Words()), bp) && initialPage == old(initialPage)
    {
      var m := mem;
      var preAlloc := GetAlloc(Get(m, Hdrp(PrevBlkp(m, bp))));
      var nextAlloc := GetAlloc(Get(m, Hdrp(NextBlkp(m, bp))));
      var size := GetSize(Get(m, Hdrp(bp)));
      r := bp;
      if preAlloc == 0 && nextAlloc != 0 {
        size := size + GetSize(Get(m, Hdrp(PrevBlkp(m, r))));
        m := m[Hdrp(PrevBlkp(m, r)) := Pack(size, 0)];
        m := m[Ftrp(m, r) := Pack(size, 0)];
        mem := m;
        r := PrevBlkp(m, r);
      } else if preAlloc != 0 && nextAlloc == 0 {
        MergeNext(bp, size);
      } else if preAlloc != 0 && nextAlloc != 0 {
        AddListNode(r);
      } else {
        r := MergeBoth(bp, size);
      }
    }

    /** coalesce's case of a free block after bp only: that block leaves the list, bp takes its bytes and is pushed. */
    method MergeNext(bp: int, size: nat)
      requires GetAlloc(Get(mem, Hdrp(PrevBlkp(mem, bp)))) != 0 && GetAlloc(Get(mem, Hdrp(NextBlkp(mem, bp)))) == 0
      requires size == GetSize(Get(mem, Hdrp(bp)))
      modifies this
      ensures (Words(), bp) == Coalesced(old(Words()), bp) && initialPage == old(initialPage)
    {
      var m := mem;
      var total := size + GetSize(Get(m, Hdrp(NextBlkp(m, bp))));
      RemoveListNode(NextBlkp(m, bp));
      m := mem;
      m := m[Hdrp(bp) := Pack(total, 0)];
      m := m[Ftrp(m, bp) := Pack(total, 0)];
      mem := m;
      AddListNode(bp);
    }

    /** coalesce's case of free blocks on both sides: the block after bp leaves the list and the block before bp
      * takes the bytes of all three. */
    method MergeBoth(bp: int, size: nat) returns (r: int)
      requires GetAlloc(Get(mem, Hdrp(PrevBlkp(mem, bp)))) == 0 && GetAlloc(Get(mem, Hdrp(NextBlkp(mem, bp)))) == 0
      requires size == GetSize(Get(mem, Hdrp(bp)))
      modifies this
      ensures (Words(), r) == Coalesced(old(Words()), bp) && initialPage == old(initialPage)
    {
      var m := mem;
      var total := size + GetSize(Get(m, Hdrp(PrevBlkp(m, bp)))) + GetSize(Get(m, Hdrp(NextBlkp(m, bp))));
      RemoveListNode(NextBlkp(m, bp));
      m := mem;
      m := m[Hdrp(PrevBlkp(m, bp)) := Pack(total, 0)];
      m := m[Ftrp(m, NextBlkp(m, bp)) := Pack(total, 0)];
      mem := m;
      r := PrevBlkp(m, bp);
    }

    /** mm_free: the result is the (address, length) it passes to mem_unmap, if it releases a page.  The whole-page
      * test reads the prolog footer just before the block's header (see AllocatorFindings.WholePageMisfire). */
    method MmFree(ptr: int) returns (unmap: Option<(int, int)>)
      modifies this
      ensures (Words(), unmap) == Released(old(Words()), ptr) && initialPage == old(initialPage)
    {
      var m := mem;
      var ptrSize := GetSize(Get(m, Hdrp(ptr)));
      m := m[Hdrp(ptr) := Pack(ptrSize, 0)];
      m := m[Ftrp(m, ptr) := Pack(ptrSize, 0)];
      mem := m;
      var newPtr := Coalesce(ptr);
      unmap := ReleaseWholePage(newPtr);
    }

    /** The end of mm_free: the coalesced block newPtr leaves the list, and its page is released, when it fills its
      * page. */
    method ReleaseWholePage(newPtr: int) returns (unmap: Option<(int, int)>)
      modifies this
      ensures (Words(), unmap) == ReleasePage((old(Words()), newPtr)) && initialPage == old(initialPage)
    {
      if WholePage(mem, newPtr) {
        RemoveListNode(newPtr);
        var length := GetSize(Get(mem, Hdrp(newPtr))) + PAGE_OVERHEAD;
        unmap := Some((newPtr - PAGE_OVERHEAD, length));
      } else {
        unmap := None;
      }
    }

    /** mm_malloc: `base` is the page mem_map returns if extend is called; `fl` names the free list's nodes. */
    method MmMalloc(size: nat, base: int, ghost fl: seq<int>) returns (p: int)
      requires ListOk(mem, listHeader, fl) && PageSizeOk()
      modifies this
      ensures (Words(), initialPage, p) == Malloc(old(Words()), old(initialPage), pageSize, fl, size, base)
    {
      var newSize := Align(size + OVERHEAD);
      p := FirstFit(newSize, fl);
      if p == 0 {
        Extend(newSize, base);
        p := listHeader;
      }
      SetAllocated(p, newSize);
    }
  }

  /** first_fit's loop, over the words m it only reads: from `head` along `next` until a block of at least s bytes,
    * or NULL (0) at the end of the list. */
  method ScanList(m: map<int, int>, head: int, s: nat, ghost fl: seq<int>) returns (p: int)
    requires Linked(m, fl) && head == (if fl == [] then 0 else fl[0])
    ensures p == FirstFitIn(m, fl, s)
  {
    var current := head;
    ghost var rest := fl;
    while current != 0
      invariant Linked(m, rest) && current == (if rest == [] then 0 else rest[0])
      invariant FirstFitIn(m, rest, s) == FirstFitIn(m, fl, s)
      decreases |rest|
    {
      if GetSize(Get(m, Hdrp(current))) >= s {
        return current;
      }
      current := Get(m, current + 8);
      rest := rest[1..];
    }
    return 0;
  }
}
