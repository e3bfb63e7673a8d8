/// The explicit free list of Allocator/mm.c: a doubly linked list threaded
/// through the payloads of free blocks, `pre` at payload offset 0 and `next`
/// at payload offset 8, NULL (0) at both ends.  The effect of
/// add_list_node and remove_list_node on memory is given here as functions
/// on the word map, with lemmas saying what they do to the list.
module AllocatorList {
  import opened AllocatorCodec
  import opened AllocatorHeap

  /** The words add_list_node writes: bp's `next` := old head, bp's `pre` := NULL, the old head's `pre` := bp. */
  function Pushed(m: map<int, int>, head: int, bp: int): map<int, int>
  {
    var m1 := m[bp + 8 := head][bp := 0];
    if head != 0 then m1[head := bp] else m1
  }

  /** The words remove_list_node writes: the successor's `pre` and the predecessor's `next` skip bp. */
  function Unlinked(m: map<int, int>, bp: int): map<int, int>
  {
    var pre, next := Get(m, bp), Get(m, bp + 8);
    var m1 := if next != 0 then m[next := pre] else m;
    if pre != 0 then m1[pre + 8 := next] else m1
  }

  /** The list head after remove_list_node(bp). */
  function HeadAfterUnlink(m: map<int, int>, head: int, bp: int): int
  {
    if head == bp then Get(m, bp + 8) else head
  }

  /** `s` with its element at index `k` taken out, the rest in order. */
  function Without(s: seq<int>, k: nat): (r: seq<int>)
    requires k < |s|
    ensures |r| == |s| - 1
    ensures forall j :: 0 <= j < |r| ==> r[j] == (if j < k then s[j] else s[j + 1])
  {
    s[..k] + s[k + 1..]
  }

  /** The position of `x` in `s`. */
  function IndexOf(s: seq<int>, x: int): (k: nat)
    requires x in s
    ensures k < |s| && s[k] == x
    ensures forall j :: 0 <= j < k ==> s[j] != x
  {
    if s[0] == x then 0 else 1 + IndexOf(s[1..], x)
  }

  /** The links of the node at index `k`: its neighbours in the list, NULL at the ends. */
  lemma ListLinks(m: map<int, int>, head: int, fl: seq<int>, k: nat)
    requires ListOk(m, head, fl) && k < |fl|
    ensures Get(m, fl[k]) == (if k == 0 then 0 else fl[k - 1])
    ensures Get(m, fl[k] + 8) == (if k == |fl| - 1 then 0 else fl[k + 1])
  {
  }

  /** The forward half of a well-formed list: following `next` from the first node visits the nodes of `fl` in
    * order and then reads NULL. */
  ghost predicate Linked(m: map<int, int>, fl: seq<int>)
  {
    fl == [] || (fl[0] != 0 && Get(m, fl[0] + 8) == (if |fl| == 1 then 0 else fl[1]) && Linked(m, fl[1..]))
  }

  /** Every suffix of a well-formed list, from the node at index k on, is linked forward. */
  lemma {:induction false} LinkedFrom(m: map<int, int>, head: int, fl: seq<int>, k: nat)
    requires ListOk(m, head, fl) && k <= |fl|
    ensures Linked(m, fl[k..])
    decreases |fl| - k
  {
    if k < |fl| {
      LinkedFrom(m, head, fl, k + 1);
      ListLinks(m, head, fl, k);
      assert fl[k..][0] == fl[k] && fl[k..][1..] == fl[k + 1..];
    }
  }

  /** add_list_node(bp) puts bp in front of the list and keeps the order of the rest. */
  lemma ListPush(m: map<int, int>, head: int, fl: seq<int>, bp: int)
    requires ListOk(m, head, fl)
    requires bp > 0 && bp % 16 == 0 && bp !in fl
    ensures ListOk(Pushed(m, head, bp), bp, [bp] + fl)
  {
    var m' := Pushed(m, head, bp);
    var fl' := [bp] + fl;
    assert head != bp && head != bp + 8 by {
      if head != 0 {
        assert head == fl[0];
      }
    }
    forall i | 0 <= i < |fl'|
      ensures Get(m', fl'[i]) == (if i == 0 then 0 else fl'[i - 1])
      ensures Get(m', fl'[i] + 8) == (if i == |fl'| - 1 then 0 else fl'[i + 1])
    {
      if i > 0 {
        var n := fl[i - 1];
        assert n != bp && n != bp + 8 && n + 8 != bp && n + 8 != bp + 8 && n + 8 != head;
        if i > 1 {
          assert n != fl[0];
        }
      }
    }
    assert ListOk(m', bp, fl');
  }

  /** remove_list_node unlinks exactly the node at index `k`, updates the head if it was the head, and keeps the order of the rest. */
  lemma ListRemove(m: map<int, int>, head: int, fl: seq<int>, k: nat)
    requires ListOk(m, head, fl) && k < |fl|
    ensures ListOk(Unlinked(m, fl[k]), HeadAfterUnlink(m, head, fl[k]), Without(fl, k))
  {
    ListRemoveHead(m, head, fl, k);
    WithoutNodes(fl, k);
    ListRemoveAllLinks(m, head, fl, k);
  }

  /** The head after remove_list_node is the first node of the shortened list. */
  lemma ListRemoveHead(m: map<int, int>, head: int, fl: seq<int>, k: nat)
    requires ListOk(m, head, fl) && k < |fl|
    ensures HeadAfterUnlink(m, head, fl[k]) == (if Without(fl, k) == [] then 0 else Without(fl, k)[0])
  {
    ListLinks(m, head, fl, k);
    if k > 0 {
      assert head == fl[0] != fl[k];
    }
  }

  /** After remove_list_node every remaining node is linked to its neighbours in the shortened list. */
  lemma ListRemoveAllLinks(m: map<int, int>, head: int, fl: seq<int>, k: nat)
    requires ListOk(m, head, fl) && k < |fl|
    ensures forall j :: 0 <= j < |Without(fl, k)| ==>
      && Get(Unlinked(m, fl[k]), Without(fl, k)[j]) == (if j == 0 then 0 else Without(fl, k)[j - 1])
      && Get(Unlinked(m, fl[k]), Without(fl, k)[j] + 8) == (if j == |Without(fl, k)| - 1 then 0 else Without(fl, k)[j + 1])
  {
    forall j | 0 <= j < |Without(fl, k)|
      ensures Get(Unlinked(m, fl[k]), Without(fl, k)[j]) == (if j == 0 then 0 else Without(fl, k)[j - 1])
      ensures Get(Unlinked(m, fl[k]), Without(fl, k)[j] + 8) == (if j == |Without(fl, k)| - 1 then 0 else Without(fl, k)[j + 1])
    {
      ListRemoveLinks(m, head, fl, k, j);
    }
  }

  /** Taking one node out keeps the others distinct, non-null and aligned. */
  lemma WithoutNodes(fl: seq<int>, k: nat)
    requires k < |fl|
    requires forall i, j :: 0 <= i < j < |fl| ==> fl[i] != fl[j]
    requires forall i :: 0 <= i < |fl| ==> fl[i] > 0 && fl[i] % 16 == 0
    ensures forall i, j :: 0 <= i < j < |Without(fl, k)| ==> Without(fl, k)[i] != Without(fl, k)[j]
    ensures forall i :: 0 <= i < |Without(fl, k)| ==> Without(fl, k)[i] > 0 && Without(fl, k)[i] % 16 == 0
  {
    var fl' := Without(fl, k);
    forall i, j | 0 <= i < j < |fl'|
      ensures fl'[i] != fl'[j]
    {
      assert fl'[i] == fl[if i < k then i else i + 1];
      assert fl'[j] == fl[if j < k then j else j + 1];
    }
  }

  /** After remove_list_node, the node at index j of the shortened list is linked to its neighbours there. */
  lemma ListRemoveLinks(m: map<int, int>, head: int, fl: seq<int>, k: nat, j: nat)
    requires ListOk(m, head, fl) && k < |fl| && j < |fl| - 1
    ensures var fl' := Without(fl, k);
      && Get(Unlinked(m, fl[k]), fl'[j]) == (if j == 0 then 0 else fl'[j - 1])
      && Get(Unlinked(m, fl[k]), fl'[j] + 8) == (if j == |fl'| - 1 then 0 else fl'[j + 1])
  {
    var fl' := Without(fl, k);
    var idx := if j < k then j else j + 1;
    assert fl'[j] == fl[idx];
    ListLinks(m, head, fl, k);
    ListLinks(m, head, fl, idx);
    UnlinkedAt(m, fl, k, idx);
    assert j > 0 ==> fl'[j - 1] == fl[if j - 1 < k then j - 1 else j];
    assert j < |fl'| - 1 ==> fl'[j + 1] == fl[if j + 1 < k then j + 1 else j + 2];
  }

  /** What remove_list_node(fl[k]) does to the links of another node fl[idx]: only the neighbours of fl[k] change. */
  lemma UnlinkedAt(m: map<int, int>, fl: seq<int>, k: nat, idx: nat)
    requires k < |fl| && idx < |fl| && idx != k
    requires Get(m, fl[k]) == (if k == 0 then 0 else fl[k - 1])
    requires Get(m, fl[k] + 8) == (if k == |fl| - 1 then 0 else fl[k + 1])
    requires fl[idx] % 16 == 0 && (k > 0 ==> fl[k - 1] > 0 && fl[k - 1] % 16 == 0) && (k < |fl| - 1 ==> fl[k + 1] > 0 && fl[k + 1] % 16 == 0)
    requires k + 1 < |fl| ==> (fl[idx] == fl[k + 1] <==> idx == k + 1)
    requires k > 0 ==> (fl[idx] == fl[k - 1] <==> idx == k - 1)
    ensures Get(Unlinked(m, fl[k]), fl[idx]) == if idx == k + 1 then Get(m, fl[k]) else Get(m, fl[idx])
    ensures Get(Unlinked(m, fl[k]), fl[idx] + 8) == if idx + 1 == k then Get(m, fl[k] + 8) else Get(m, fl[idx] + 8)
  {
  }

  // ---------------------------------------------------------------------------
  // The list and the boundary tags do not interfere
  // ---------------------------------------------------------------------------

  /** add_list_node writes only link words inside payloads, so every header, footer, prolog and terminator is kept. */
  lemma PushedControl(m: map<int, int>, pages: map<int, int>, blocks: map<int, Block>, head: int, fl: seq<int>, bp: int)
    requires Layout(pages, blocks)
    requires ListOk(m, head, fl) && NodesAreBlocks(blocks, fl) && bp in blocks
    ensures SameControl(m, Pushed(m, head, bp), pages, blocks)
  {
    assert InPage(pages, bp, blocks[bp]);
    var m1 := m[bp + 8 := head];
    PayloadWrite(m, pages, blocks, bp, bp + 8, head);
    var m2 := m1[bp := 0];
    PayloadWrite(m1, pages, blocks, bp, bp, 0);
    ControlTrans(m, m1, m2, pages, blocks);
    if head != 0 {
      assert head == fl[0] && InPage(pages, head, blocks[head]);
      PayloadWrite(m2, pages, blocks, head, head, bp);
      ControlTrans(m, m2, m2[head := bp], pages, blocks);
    }
  }

  /** remove_list_node writes only link words inside payloads. */
  lemma UnlinkedControl(m: map<int, int>, pages: map<int, int>, blocks: map<int, Block>, head: int, fl: seq<int>, k: nat)
    requires Layout(pages, blocks)
    requires ListOk(m, head, fl) && NodesAreBlocks(blocks, fl) && k < |fl|
    ensures SameControl(m, Unlinked(m, fl[k]), pages, blocks)
  {
    var bp := fl[k];
    var pre, next := Get(m, bp), Get(m, bp + 8);
    var m1 := if next != 0 then m[next := pre] else m;
    ListLinks(m, head, fl, k);
    if next != 0 {
      assert next == fl[k + 1] && InPage(pages, next, blocks[next]);
      PayloadWrite(m, pages, blocks, next, next, pre);
    }
    if pre != 0 {
      assert pre == fl[k - 1] && InPage(pages, pre, blocks[pre]);
      PayloadWrite(m1, pages, blocks, pre, pre + 8, next);
      ControlTrans(m, m1, m1[pre + 8 := next], pages, blocks);
    }
  }

  /** A write in the span of block `x` that misses x's own link words (when x is listed) keeps the list. */
  lemma RegionWriteList(m: map<int, int>, head: int, fl: seq<int>, blocks: map<int, Block>, x: int, a: int, v: int)
    requires ListOk(m, head, fl) && NodesAreBlocks(blocks, fl)
    requires Disjoint(blocks) && Big(blocks)
    requires x in blocks && x - 8 <= a < x + blocks[x].size - 8
    requires x in fl ==> a < x || x + 16 <= a
    ensures ListOk(m[a := v], head, fl)
  {
    forall i | 0 <= i < |fl|
      ensures Get(m[a := v], fl[i]) == Get(m, fl[i]) && Get(m[a := v], fl[i] + 8) == Get(m, fl[i] + 8)
    {
      var n := fl[i];
      if n < x {
        assert Apart(blocks, n, x);
      } else if n > x {
        assert Apart(blocks, x, n);
      }
      GetOther(m, a, v, n);
      GetOther(m, a, v, n + 8);
    }
  }
}
