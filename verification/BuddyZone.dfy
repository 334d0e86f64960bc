/** One zone of the buddy page allocator (jiukun/buddy.c): page marks, free lists, split and merge. */
module BuddyZone {
  import opened Bits
  import opened BuddyBlocks

  /** The part of jiukun_page_t that the buddy layer uses. */
  datatype Page = Page(isAllocated: bool, order: nat)

  /** buddy_zone_t; areas[k] is the free list of order k, first entry first, counts[k] its fa_u32Free. */
  datatype Zone = Zone(maxOrder: nat, pages: seq<Page>, areas: seq<seq<nat>>, counts: seq<int>, freePages: int)

  datatype Option<+T> = None | Some(value: T)

  // ----- the operations

  function AddFree(z: Zone, p: nat, k: nat): Zone
    requires p < |z.pages| && k < |z.areas| == |z.counts|
  {
    z.(areas := z.areas[k := [p] + z.areas[k]], counts := z.counts[k := z.counts[k] + 1], pages := z.pages[p := z.pages[p].(order := k)])
  }

  function Without(s: seq<nat>, x: nat): seq<nat> {
    if s == [] then [] else if s[0] == x then s[1..] else [s[0]] + Without(s[1..], x)
  }

  /** Takes p off the free list of order k and clears its order. */
  function DropFree(z: Zone, p: nat, k: nat): Zone
    requires p < |z.pages| && k < |z.areas| == |z.counts|
  {
    z.(areas := z.areas[k := Without(z.areas[k], p)], counts := z.counts[k := z.counts[k] - 1], pages := z.pages[p := z.pages[p].(order := 0)])
  }

  /** The layout of a zone: one free list per order, 2^(maxOrder-1) pages, lists that stay inside the page array, orders in range. */
  ghost predicate Shape(z: Zone) {
    && z.maxOrder > 0 && |z.areas| == |z.counts| == z.maxOrder && |z.pages| == Pow2(z.maxOrder - 1)
    && (forall k, p :: 0 <= k < |z.areas| && p in z.areas[k] ==> p + Pow2(k) <= |z.pages|)
    && (forall p :: 0 <= p < |z.pages| && z.pages[p].isAllocated ==> z.pages[p].order < z.maxOrder)
  }

  /** _splitPageList: hands the upper half to the list below until the wanted order is reached. */
  function SplitPageList(z: Zone, page: nat, low: nat, high: nat): (z': Zone)
    requires low <= high < |z.areas| == |z.counts| && page + Pow2(high) <= |z.pages|
    ensures |z'.pages| == |z.pages|
    decreases high
  {
    if high == low then z
    else SplitPageList(AddFree(z, page + Pow2(high - 1), high - 1), page, low, high - 1)
  }

  /** The lowest order from k on with a free block, or maxOrder. */
  function FirstArea(z: Zone, k: nat): (r: nat)
    requires k <= z.maxOrder == |z.areas|
    ensures k <= r <= z.maxOrder && (r < z.maxOrder ==> z.areas[r] != []) && forall j :: k <= j < r ==> z.areas[j] == []
    decreases z.maxOrder - k
  {
    if k == z.maxOrder || z.areas[k] != [] then k else FirstArea(z, k + 1)
  }

  /** _rmqueue */
  function RmQueue(z: Zone, order: nat): (r: Option<(Zone, nat)>)
    requires Shape(z) && order <= z.maxOrder
    ensures r.Some? ==> r.value.1 < |r.value.0.pages|
  {
    var cur := FirstArea(z, order);
    if cur == z.maxOrder then None
    else
      var page := z.areas[cur][0];
      assert page in z.areas[cur];
      var z1 := DropFree(z, page, cur);
      Some((SplitPageList(z1.(freePages := z1.freePages - Pow2(order)), page, order, cur), page))
  }

  /** _rmqueue followed by the marks that getJiukunPage sets. */
  function Alloc(z: Zone, order: nat): Option<(Zone, nat)>
    requires Shape(z) && order <= z.maxOrder
  {
    match RmQueue(z, order)
    case None => None
    case Some(r) => Some((r.0.(pages := r.0.pages[r.1 := Page(true, order)]), r.1))
  }

  /** The loop of _freeOnePage, then the block's entry into its free list. */
  function MergeUp(z: Zone, page: nat, order: nat): Zone
    requires z.maxOrder > 0 && |z.areas| == |z.counts| == z.maxOrder && |z.pages| == Pow2(z.maxOrder - 1)
    requires order < z.maxOrder && page < |z.pages|
    decreases z.maxOrder - order
  {
    if order < z.maxOrder - 1 then
      var b := BuddyIndex(page, order);
      BuddyIndexInZone(page, order, z.maxOrder - 1);
      if !z.pages[b].isAllocated && z.pages[b].order == order
      then MergeUp(DropFree(z, b, order), if b > page then page else b, order + 1)
      else AddFree(z, page, order)
    else AddFree(z, page, order)
  }

  lemma BuddyIndexInZone(p: nat, k: nat, top: nat)
    requires p < Pow2(top) && k < top
    ensures BuddyIndex(p, k) < Pow2(top)
    decreases top
  {
    if k > 0 {
      BuddyIndexInZone(p / 2, k - 1, top - 1);
    } else {
      XorZero(p / 2);
    }
  }

  /** putJiukunPage with _freeOnePage */
  function Free(z: Zone, page: nat): Zone
    requires Shape(z) && page < |z.pages| && z.pages[page].order < z.maxOrder
  {
    var order := z.pages[page].order;
    var z1 := z.(pages := z.pages[page := z.pages[page].(isAllocated := false)], freePages := z.freePages + Pow2(order));
    MergeUp(z1, page, order)
  }

  // ----- the invariant

  /** What a zone's marks and lists mean: the partition into blocks, and the block that is in flight, if any. */
  datatype View = View(own: seq<nat>, blocks: map<nat, nat>, pend: Option<nat>)

  /** Page p is the head of a free block of order k. */
  ghost predicate FreeAt(pages: seq<Page>, v: View, p: nat, k: nat) {
    p in v.blocks && v.blocks[p] == k && p < |pages| && v.pend != Some(p) && !pages[p].isAllocated
  }

  ghost predicate Sized(z: Zone, v: View) {
    && z.maxOrder > 0 && |z.areas| == |z.counts| == z.maxOrder && |z.pages| == |v.own| == Pow2(z.maxOrder - 1)
  }

  /** Orders are marked on the heads of blocks, and only heads of live blocks are marked allocated. */
  ghost predicate Marked(pages: seq<Page>, v: View) {
    && (forall h :: h in v.blocks && v.pend != Some(h) ==> h < |pages| && pages[h].order == v.blocks[h])
    && (forall p :: 0 <= p < |pages| && pages[p].isAllocated ==> p in v.blocks && v.pend != Some(p))
    && (v.pend.Some? ==> v.pend.value in v.blocks && v.pend.value < |pages|)
  }

  /** The free list of order k holds exactly the free blocks of order k, once each. */
  ghost predicate Listed(z: Zone, v: View) {
    && |z.areas| == |z.counts|
    && (forall k, p :: 0 <= k < |z.areas| ==> (p in z.areas[k] <==> FreeAt(z.pages, v, p, k)))
    && (forall k :: 0 <= k < |z.areas| ==> z.counts[k] == |z.areas[k]| && NoRepeat(z.areas[k]))
  }

  ghost predicate NoRepeat(s: seq<nat>) {
    forall i, j :: 0 <= i < j < |s| ==> s[i] != s[j]
  }

  /** No two buddies are free at the same order. */
  ghost predicate Coalesced(pages: seq<Page>, v: View, top: nat) {
    forall h, k :: 0 <= k < top && FreeAt(pages, v, h, k) ==> !FreeAt(pages, v, BuddyIndex(h, k), k)
  }

  ghost predicate Inv(z: Zone, v: View) {
    && Sized(z, v) && Partition(v.own, v.blocks, z.maxOrder - 1)
    && Marked(z.pages, v) && Listed(z, v) && Coalesced(z.pages, v, z.maxOrder - 1)
  }

  /** The pages on the free lists of the first n orders. */
  ghost function ListedPages(counts: seq<int>, n: nat): int
    requires n <= |counts|
  {
    if n == 0 then 0 else ListedPages(counts, n - 1) + counts[n - 1] * Pow2(n - 1)
  }

  lemma {:induction false} ListedPagesChange(counts: seq<int>, k: nat, c: int, n: nat)
    requires n <= |counts| && k < |counts|
    ensures ListedPages(counts[k := c], n) + (if k < n then counts[k] * Pow2(k) else 0)
         == ListedPages(counts, n) + (if k < n then c * Pow2(k) else 0)
  {
    if n > 0 { ListedPagesChange(counts, k, c, n - 1); }
  }

  // ----- the steps of allocation and release

  lemma {:induction false} WithoutElems(s: seq<nat>, x: nat)
    requires NoRepeat(s)
    ensures forall y :: y in Without(s, x) <==> y in s && y != x
    ensures NoRepeat(Without(s, x)) && |Without(s, x)| == if x in s then |s| - 1 else |s|
  {
    if s != [] {
      var t := s[1..];
      assert s == [s[0]] + t;
      assert s[0] !in t && NoRepeat(t);
      if s[0] != x {
        WithoutElems(t, x);
        PrependNoRepeat(Without(t, x), s[0]);
      }
    }
  }

  lemma PrependNoRepeat(s: seq<nat>, x: nat)
    requires NoRepeat(s) && x !in s
    ensures NoRepeat([x] + s) && forall y :: y in [x] + s <==> y == x || y in s
  {
  }

  /** The lists after one of them has lost or gained the block p, everything else as before. */
  lemma ListsMoved(z: Zone, v: View, z': Zone, v': View, k: nat, p: nat)
    requires Listed(z, v) && k < |z.areas|
    requires |z'.areas| == |z'.counts| == |z.areas| && z'.areas == z.areas[k := z'.areas[k]] && z'.counts == z.counts[k := z'.counts[k]]
    requires z'.counts[k] == |z'.areas[k]| && NoRepeat(z'.areas[k])
    requires forall q :: q != p ==> (q in z'.areas[k] <==> q in z.areas[k])
    requires forall q, j :: q != p ==> (FreeAt(z'.pages, v', q, j) <==> FreeAt(z.pages, v, q, j))
    requires p in z'.areas[k] <==> FreeAt(z'.pages, v', p, k)
    requires forall j :: 0 <= j < |z.areas| && j != k ==> p !in z.areas[j] && !FreeAt(z'.pages, v', p, j)
    ensures Listed(z', v')
  {
    hide FreeAt, NoRepeat;
    forall j, q | 0 <= j < |z'.areas| ensures q in z'.areas[j] <==> FreeAt(z'.pages, v', q, j) {
      assert q in z.areas[j] <==> FreeAt(z.pages, v, q, j);
    }
  }

  lemma FewerFreeStaysCoalesced(pages: seq<Page>, v: View, pages': seq<Page>, v': View, top: nat)
    requires Coalesced(pages, v, top)
    requires forall q, j :: FreeAt(pages', v', q, j) ==> FreeAt(pages, v, q, j)
    ensures Coalesced(pages', v', top)
  {
    hide BuddyIndex, FreeAt;
    forall h, k | 0 <= k < top && FreeAt(pages', v', h, k) ensures !FreeAt(pages', v', BuddyIndex(h, k), k) {
      assert FreeAt(pages, v, h, k);
    }
  }

  lemma NotElsewhere(z: Zone, v: View, p: nat, k: nat)
    requires Listed(z, v) && k < |z.areas| && p in z.areas[k]
    ensures FreeAt(z.pages, v, p, k) && z.counts[k] > 0 && NoRepeat(z.areas[k]) && z.counts[k] == |z.areas[k]|
    ensures forall j :: 0 <= j < |z.areas| && j != k ==> p !in z.areas[j]
  {
  }

  /** A free block taken off its list is in flight. */
  lemma TakeKeeps(z: Zone, v: View, p: nat, k: nat)
    requires Inv(z, v) && v.pend.None? && k < z.maxOrder && p in z.areas[k]
    ensures p < |z.pages| && z.counts[k] > 0 && p in v.blocks && v.blocks[p] == k
    ensures Inv(DropFree(z, p, k), v.(pend := Some(p)))
  {
    hide Partition, BuddyIndex, Pow2, Without, NoRepeat, Listed, Coalesced;
    var v' := v.(pend := Some(p));
    NotElsewhere(z, v, p, k);
    var z' := DropFree(z, p, k);
    WithoutElems(z.areas[k], p);
    assert forall q, j :: FreeAt(z'.pages, v', q, j) <==> FreeAt(z.pages, v, q, j) && q != p;
    ListsMoved(z, v, z', v', k, p);
    FewerFreeStaysCoalesced(z.pages, v, z'.pages, v', z.maxOrder - 1);
  }

  /** Half of the block in flight goes to the free list below, the lower half stays in flight. */
  lemma SplitStepKeeps(z: Zone, v: View, h: nat) returns (v': View)
    requires Inv(z, v) && v.pend == Some(h) && v.blocks[h] > 0
    ensures var k := v.blocks[h] - 1; k < z.maxOrder && h + Pow2(k) < |z.pages|
    ensures v'.pend == Some(h) && v'.blocks == v.blocks[h := v.blocks[h] - 1][h + Pow2(v.blocks[h] - 1) := v.blocks[h] - 1]
    ensures Inv(AddFree(z, h + Pow2(v.blocks[h] - 1), v.blocks[h] - 1), v')
  {
    hide Partition, BuddyIndex, NoRepeat, Listed, Coalesced, Aligned;
    var top, k := z.maxOrder - 1, v.blocks[h] - 1;
    var m := h + Pow2(k);
    SplitKeeps(v.own, v.blocks, top, h);
    HeadOk(v.own, v.blocks, top, h);
    UpperHalfBuddy(h, k);
    AlignedLower(h, k + 1, k);
    AlignedSum(h, k);
    FreeAligned(z, v);
    v' := View(Reown(v.own, m, h + Pow2(k + 1)), v.blocks[h := k][m := k], v.pend);
    var z' := AddFree(z, m, k);
    assert forall q, j :: q != m ==> (FreeAt(z'.pages, v', q, j) <==> FreeAt(z.pages, v, q, j));
    FreshIsNowhere(z, v, m);
    PrependNoRepeat(z.areas[k], m);
    ListsMoved(z, v, z', v', k, m);
    OneMoreStaysCoalesced(z.pages, v, z'.pages, v', top, m, k);
  }

  lemma FreeAligned(z: Zone, v: View)
    requires z.maxOrder > 0 && Partition(v.own, v.blocks, z.maxOrder - 1)
    ensures forall q, j :: FreeAt(z.pages, v, q, j) ==> Aligned(q, j)
  {
    hide Aligned;
    forall q, j | FreeAt(z.pages, v, q, j) ensures Aligned(q, j) {
      assert BlockOk(v.own, v.blocks, z.maxOrder - 1, q);
    }
  }

  lemma HeadOk(own: seq<nat>, blocks: map<nat, nat>, top: nat, h: nat)
    requires Partition(own, blocks, top) && h in blocks
    ensures blocks[h] <= top && Aligned(h, blocks[h]) && h + Pow2(blocks[h]) <= |own|
  {
    assert BlockOk(own, blocks, top, h);
  }

  lemma UpperHalfBuddy(h: nat, k: nat)
    requires Aligned(h, k + 1)
    ensures BuddyIndex(h + Pow2(k), k) == h && BuddyIndex(h, k) == h + Pow2(k)
  {
    hide Aligned, BuddyIndex;
    AlignedLower(h, k + 1, k);
    BuddyPair(h, k);
    if BuddyIndex(h, k) < h {
      AlignedGap(h - Pow2(k), h, k + 1);
    }
  }

  lemma FreshIsNowhere(z: Zone, v: View, m: nat)
    requires Listed(z, v) && m !in v.blocks
    ensures forall j :: 0 <= j < |z.areas| ==> m !in z.areas[j]
    ensures forall j :: 0 <= j < |z.areas| ==> NoRepeat(z.areas[j]) && z.counts[j] == |z.areas[j]|
  {
  }

  /** A new free block whose buddy is not free at its order keeps buddies apart. */
  lemma OneMoreStaysCoalesced(pages: seq<Page>, v: View, pages': seq<Page>, v': View, top: nat, m: nat, k: nat)
    requires Coalesced(pages, v, top) && Aligned(m, k)
    requires forall q, j :: q != m ==> (FreeAt(pages', v', q, j) ==> FreeAt(pages, v, q, j) && Aligned(q, j))
    requires forall j :: FreeAt(pages', v', m, j) ==> j == k
    requires k < top ==> BuddyIndex(m, k) != m && !FreeAt(pages', v', BuddyIndex(m, k), k)
    ensures Coalesced(pages', v', top)
  {
    hide BuddyIndex, FreeAt, Aligned;
    forall h, j | 0 <= j < top && FreeAt(pages', v', h, j) ensures !FreeAt(pages', v', BuddyIndex(h, j), j) {
      if h != m {
        BuddyPair(h, j);
        if BuddyIndex(h, j) == m {
          assert FreeAt(pages', v', m, j) ==> j == k;
        } else {
          assert FreeAt(pages, v, h, j);
        }
      }
    }
  }

  /** Marking the block in flight as allocated, and clearing that mark. */
  lemma MarkKeeps(z: Zone, v: View, h: nat)
    requires Inv(z, v) && v.pend == Some(h)
    ensures Inv(z.(pages := z.pages[h := Page(true, v.blocks[h])]), v.(pend := None))
  {
    hide Partition, BuddyIndex, NoRepeat, Pow2;
    var z', v' := z.(pages := z.pages[h := Page(true, v.blocks[h])]), v.(pend := None);
    assert forall q, j :: FreeAt(z'.pages, v', q, j) <==> FreeAt(z.pages, v, q, j);
    SameFree(z, v, z', v');
  }

  lemma UnmarkKeeps(z: Zone, v: View, h: nat)
    requires Inv(z, v) && v.pend.None? && h < |z.pages| && z.pages[h].isAllocated
    ensures Inv(z.(pages := z.pages[h := z.pages[h].(isAllocated := false)]), v.(pend := Some(h)))
    ensures h in v.blocks && v.blocks[h] == z.pages[h].order
  {
    hide Partition, BuddyIndex, NoRepeat, Pow2;
    var z', v' := z.(pages := z.pages[h := z.pages[h].(isAllocated := false)]), v.(pend := Some(h));
    assert forall q, j :: FreeAt(z'.pages, v', q, j) <==> FreeAt(z.pages, v, q, j);
    SameFree(z, v, z', v');
  }

  lemma SameFree(z: Zone, v: View, z': Zone, v': View)
    requires z.maxOrder > 0 && Listed(z, v) && Coalesced(z.pages, v, z.maxOrder - 1) && z'.areas == z.areas && z'.counts == z.counts
    requires forall q, j :: FreeAt(z'.pages, v', q, j) <==> FreeAt(z.pages, v, q, j)
    ensures Listed(z', v') && Coalesced(z'.pages, v', z.maxOrder - 1)
  {
    hide FreeAt, BuddyIndex, NoRepeat;
  }

  /** The block in flight swallows its free buddy. */
  lemma MergeStepKeeps(z: Zone, v: View, p: nat) returns (v': View)
    requires Inv(z, v) && v.pend == Some(p) && v.blocks[p] < z.maxOrder - 1
    requires FreeAt(z.pages, v, BuddyIndex(p, v.blocks[p]), v.blocks[p])
    ensures var k, b := v.blocks[p], BuddyIndex(p, v.blocks[p]);
            && b < |z.pages| && z.counts[k] > 0 && b != p
            && v'.pend == Some(if b > p then p else b) && v'.blocks == (v.blocks - {p, b})[(if b > p then p else b) := k + 1]
            && Inv(DropFree(z, b, k), v')
  {
    hide Partition, BuddyIndex, NoRepeat, Pow2, Listed, Coalesced, Aligned, Without;
    var top, k := z.maxOrder - 1, v.blocks[p];
    var b := BuddyIndex(p, k);
    HeadOk(v.own, v.blocks, top, p);
    BuddyPair(p, k);
    assert b in z.areas[k] by { ListedAt(z, v, b, k); }
    NotElsewhere(z, v, b, k);
    WithoutElems(z.areas[k], b);
    var lo, hi := if b > p then p else b, if b > p then b else p;
    MergeKeeps(v.own, v.blocks, top, lo);
    v' := View(Reown(v.own, lo, hi + Pow2(k)), (v.blocks - {hi})[lo := k + 1], Some(lo));
    assert v'.blocks == (v.blocks - {p, b})[lo := k + 1];
    var z' := DropFree(z, b, k);
    assert forall q, j :: FreeAt(z'.pages, v', q, j) <==> FreeAt(z.pages, v, q, j) && q != b;
    ListsMoved(z, v, z', v', k, b);
    FewerFreeStaysCoalesced(z.pages, v, z'.pages, v', top);
  }

  lemma ListedAt(z: Zone, v: View, p: nat, k: nat)
    requires Listed(z, v) && k < |z.areas|
    ensures p in z.areas[k] <==> FreeAt(z.pages, v, p, k)
  {
  }

  /** The block in flight joins the free list of its order when its buddy is not free there. */
  lemma FinishKeeps(z: Zone, v: View, p: nat)
    requires Inv(z, v) && v.pend == Some(p)
    requires v.blocks[p] < z.maxOrder - 1 ==> !FreeAt(z.pages, v, BuddyIndex(p, v.blocks[p]), v.blocks[p])
    ensures v.blocks[p] < z.maxOrder && Inv(AddFree(z, p, v.blocks[p]), v.(pend := None))
  {
    hide Partition, BuddyIndex, NoRepeat, Pow2, Listed, Coalesced, Aligned;
    var top, k := z.maxOrder - 1, v.blocks[p];
    HeadOk(v.own, v.blocks, top, p);
    var z', v' := AddFree(z, p, k), v.(pend := None);
    PendingIsNowhere(z, v, p);
    PrependNoRepeat(z.areas[k], p);
    assert forall q, j :: q != p ==> (FreeAt(z'.pages, v', q, j) <==> FreeAt(z.pages, v, q, j));
    ListsMoved(z, v, z', v', k, p);
    FreeAligned(z, v);
    BuddyPair(p, k);
    OneMoreStaysCoalesced(z.pages, v, z'.pages, v', top, p, k);
  }

  lemma PendingIsNowhere(z: Zone, v: View, p: nat)
    requires Listed(z, v) && v.pend == Some(p)
    ensures forall j :: 0 <= j < |z.areas| ==> p !in z.areas[j]
    ensures forall j :: 0 <= j < |z.areas| ==> NoRepeat(z.areas[j]) && z.counts[j] == |z.areas[j]|
  {
  }

  /** _isBuddyPage tells exactly whether the buddy is a free block of the same order. */
  lemma IsBuddyPage(z: Zone, v: View, p: nat)
    requires Inv(z, v) && v.pend == Some(p) && v.blocks[p] < z.maxOrder - 1
    ensures var k, b := v.blocks[p], BuddyIndex(p, v.blocks[p]);
            && b < |z.pages| && b != p
            && (!z.pages[b].isAllocated && z.pages[b].order == k <==> FreeAt(z.pages, v, b, k))
  {
    hide BuddyIndex, Pow2, Listed, Coalesced;
    BuddyIsHead(v.own, v.blocks, z.maxOrder - 1, p);
  }

  // ----- whole operations

  /** A zone between operations: nothing in flight, and the page count is the sum over the free lists. */
  ghost predicate ZoneOk(z: Zone, v: View) {
    Inv(z, v) && v.pend.None? && z.freePages == ListedPages(z.counts, z.maxOrder)
  }

  /** The allocated blocks of a zone: head page and order. */
  ghost function Live(z: Zone): map<nat, nat> {
    map p | 0 <= p < |z.pages| && z.pages[p].isAllocated :: z.pages[p].order
  }

  ghost predicate SameAllocated(z: Zone, z': Zone) {
    && |z'.pages| == |z.pages|
    && (forall p :: 0 <= p < |z.pages| ==> z'.pages[p].isAllocated == z.pages[p].isAllocated)
    && (forall p :: 0 <= p < |z.pages| && z.pages[p].isAllocated ==> z'.pages[p] == z.pages[p])
  }

  lemma InvShape(z: Zone, v: View)
    requires Inv(z, v)
    ensures Shape(z)
  {
    hide Pow2, Coalesced, NoRepeat, Aligned;
    forall k, p | 0 <= k < |z.areas| && p in z.areas[k] ensures p + Pow2(k) <= |z.pages| {
      assert FreeAt(z.pages, v, p, k);
      HeadOk(v.own, v.blocks, z.maxOrder - 1, p);
    }
    forall p | 0 <= p < |z.pages| && z.pages[p].isAllocated ensures z.pages[p].order < z.maxOrder {
      HeadOk(v.own, v.blocks, z.maxOrder - 1, p);
    }
  }

  /** Splitting keeps the invariant, leaves live blocks alone and puts the split-off pages on the lists. */
  lemma {:induction false} SplitListKeeps(z: Zone, v: View, page: nat, low: nat, high: nat) returns (v': View)
    requires Inv(z, v) && v.pend == Some(page) && v.blocks[page] == high && low <= high
    requires high < z.maxOrder && page + Pow2(high) <= |z.pages|
    ensures var z' := SplitPageList(z, page, low, high);
            && Inv(z', v') && v'.pend == Some(page) && v'.blocks[page] == low && SameAllocated(z, z')
            && z'.freePages == z.freePages && z'.maxOrder == z.maxOrder
            && ListedPages(z'.counts, z.maxOrder) == ListedPages(z.counts, z.maxOrder) + Pow2(high) - Pow2(low)
    decreases high
  {
    hide Inv, ListedPages;
    if high == low {
      v' := v;
    } else {
      PendingFacts(z, v, page);
      var v1 := SplitStepKeeps(z, v, page);
      var k, m := high - 1, page + Pow2(high - 1);
      var z1 := AddFree(z, m, k);
      ListedPagesChange(z.counts, k, z.counts[k] + 1, z.maxOrder);
      Distribute(z.counts[k], 1, Pow2(k));
      assert !z.pages[m].isAllocated by { NewHeadUnmarked(z, v, page, m); }
      v' := SplitListKeeps(z1, v1, page, low, k);
    }
  }

  lemma PendingFacts(z: Zone, v: View, page: nat)
    requires Inv(z, v) && v.pend == Some(page)
    ensures page in v.blocks && page < |z.pages| && z.maxOrder == |z.areas| == |z.counts| && v.blocks[page] < z.maxOrder
    ensures page + Pow2(v.blocks[page]) <= |z.pages| && !z.pages[page].isAllocated
  {
    HeadOk(v.own, v.blocks, z.maxOrder - 1, page);
  }

  lemma NewHeadUnmarked(z: Zone, v: View, page: nat, m: nat)
    requires Inv(z, v) && v.pend == Some(page) && v.blocks[page] > 0 && m == page + Pow2(v.blocks[page] - 1)
    ensures m < |z.pages| && !z.pages[m].isAllocated
  {
    SplitPoint(v.own, v.blocks, z.maxOrder - 1, page);
  }

  /** Blocks of different heads share no page. */
  ghost predicate Apart(p: nat, j: nat, q: nat, k: nat) {
    p + Pow2(j) <= q || q + Pow2(k) <= p
  }

  /** Live blocks lie inside the zone, aligned, and share no page. */
  lemma LiveBlocksDisjoint(z: Zone, v: View)
    requires ZoneOk(z, v)
    ensures forall p :: p in Live(z) ==> Live(z)[p] < z.maxOrder && Aligned(p, Live(z)[p]) && p + Pow2(Live(z)[p]) <= |z.pages|
    ensures forall p, q :: p in Live(z) && q in Live(z) && p != q ==> Apart(p, Live(z)[p], q, Live(z)[q])
  {
    hide Aligned, Pow2, Listed, Coalesced;
    forall p | p in Live(z) ensures Live(z)[p] < z.maxOrder && Aligned(p, Live(z)[p]) && p + Pow2(Live(z)[p]) <= |z.pages| {
      HeadOk(v.own, v.blocks, z.maxOrder - 1, p);
    }
    forall p, q | p in Live(z) && q in Live(z) && p != q ensures Apart(p, Live(z)[p], q, Live(z)[q]) {
      OtherBlockApart(v.own, v.blocks, z.maxOrder - 1, p, q);
    }
  }

  /** The first block of the first usable list comes off its list. */
  lemma TakeFirst(z: Zone, v: View, cur: nat) returns (z1: Zone)
    requires ZoneOk(z, v) && cur < z.maxOrder && |z.areas| == |z.counts| == z.maxOrder && z.areas[cur] != [] && z.areas[cur][0] < |z.pages|
    ensures z1 == DropFree(z, z.areas[cur][0], cur) && Inv(z1, v.(pend := Some(z.areas[cur][0])))
    ensures z.areas[cur][0] in v.blocks && v.blocks[z.areas[cur][0]] == cur && SameAllocated(z, z1)
    ensures ListedPages(z1.counts, z1.maxOrder) == z.freePages - Pow2(cur)
  {
    hide Inv, ListedPages, Pow2, Without;
    var page := z.areas[cur][0];
    assert page in z.areas[cur];
    TakeKeeps(z, v, page, cur);
    z1 := DropFree(z, page, cur);
    PendingFacts(z1, v.(pend := Some(page)), page);
    ListedPagesChange(z.counts, cur, z.counts[cur] - 1, z.maxOrder);
    Distribute(z.counts[cur], -1, Pow2(cur));
  }

  /** Taking a block from the lists and splitting it down to the wanted order. */
  lemma RmQueueKeeps(z: Zone, v: View, order: nat) returns (v': View)
    requires ZoneOk(z, v) && order < z.maxOrder && Shape(z) && RmQueue(z, order).Some?
    ensures var (z', page) := RmQueue(z, order).value;
            && Inv(z', v') && v'.pend == Some(page) && v'.blocks[page] == order && SameAllocated(z, z')
            && z'.maxOrder == z.maxOrder && z'.freePages == z.freePages - Pow2(order)
            && z'.freePages == ListedPages(z'.counts, z'.maxOrder)
  {
    hide Inv, ListedPages, Pow2, SplitPageList, FirstArea, DropFree, ZoneOk, NoRepeat;
    var cur := FirstArea(z, order);
    var page := z.areas[cur][0];
    assert page in z.areas[cur];
    var z1 := TakeFirst(z, v, cur);
    var z2 := z1.(freePages := z1.freePages - Pow2(order));
    DropFreeShape(z, page, cur);
    var vp := v.(pend := Some(page));
    SameInv(z1, z2, vp);
    v' := SplitListKeeps(z2, vp, page, order, cur);
  }

  lemma DropFreeShape(z: Zone, p: nat, k: nat)
    requires p < |z.pages| && k < |z.areas| == |z.counts|
    ensures var z' := DropFree(z, p, k);
            z'.maxOrder == z.maxOrder && |z'.areas| == |z'.counts| == |z.areas| && |z'.pages| == |z.pages| && z'.freePages == z.freePages
  {
  }

  lemma SameInv(z: Zone, z': Zone, v: View)
    requires Inv(z, v) && z' == z.(freePages := z'.freePages)
    ensures Inv(z', v)
  {
  }

  /** An allocation fails exactly when no free block of the wanted order or above exists. */
  lemma AllocFailsIff(z: Zone, v: View, order: nat)
    requires ZoneOk(z, v) && order < z.maxOrder && Shape(z)
    ensures Alloc(z, order).None? <==> forall p: nat, k: nat :: FreeAt(z.pages, v, p, k) ==> k < order
  {
    hide Pow2, Coalesced, Aligned, NoRepeat, FreeAt, SplitPageList;
    var cur := FirstArea(z, order);
    if cur == z.maxOrder {
      forall p: nat, k: nat | FreeAt(z.pages, v, p, k) ensures k < order {
        FreeInRange(z, v, p, k);
        assert p in z.areas[k];
      }
    } else {
      assert z.areas[cur][0] in z.areas[cur];
      assert FreeAt(z.pages, v, z.areas[cur][0], cur);
    }
  }

  lemma FreeInRange(z: Zone, v: View, p: nat, k: nat)
    requires Inv(z, v) && FreeAt(z.pages, v, p, k)
    ensures k < z.maxOrder
  {
    HeadOk(v.own, v.blocks, z.maxOrder - 1, p);
  }

  /** A successful allocation adds one live block of the wanted order and takes its pages from the free count. */
  lemma AllocKeeps(z: Zone, v: View, order: nat) returns (v': View)
    requires ZoneOk(z, v) && order < z.maxOrder && Shape(z) && Alloc(z, order).Some?
    ensures var (z', page) := Alloc(z, order).value;
            && ZoneOk(z', v') && z'.maxOrder == z.maxOrder && page !in Live(z) && Live(z') == Live(z)[page := order]
            && z'.freePages == z.freePages - Pow2(order)
  {
    hide Inv, ListedPages, Pow2, RmQueue;
    var v1 := RmQueueKeeps(z, v, order);
    var (z1, page) := RmQueue(z, order).value;
    PendingFacts(z1, v1, page);
    MarkKeeps(z1, v1, page);
    v' := v1.(pend := None);
    var z' := z1.(pages := z1.pages[page := Page(true, order)]);
    assert Live(z') == Live(z)[page := order];
  }

  /** Merging upward ends with the block on a free list and nothing in flight. */
  lemma {:induction false} MergeUpKeeps(z: Zone, v: View, page: nat, order: nat) returns (v': View)
    requires Inv(z, v) && v.pend == Some(page) && v.blocks[page] == order && order < z.maxOrder && page < |z.pages|
    requires |z.areas| == |z.counts| == z.maxOrder && |z.pages| == Pow2(z.maxOrder - 1)
    requires z.freePages == ListedPages(z.counts, z.maxOrder) + Pow2(order)
    ensures var z' := MergeUp(z, page, order);
            ZoneOk(z', v') && SameAllocated(z, z') && z'.freePages == z.freePages && z'.maxOrder == z.maxOrder
    decreases z.maxOrder - order
  {
    hide Inv, ListedPages, BuddyIndex;
    PendingFacts(z, v, page);
    if order < z.maxOrder - 1 {
      var b := BuddyIndex(page, order);
      IsBuddyPage(z, v, page);
      if !z.pages[b].isAllocated && z.pages[b].order == order {
        var v1 := MergeStepKeeps(z, v, page);
        var z1 := DropFree(z, b, order);
        ListedPagesChange(z.counts, order, z.counts[order] - 1, z.maxOrder);
        Distribute(z.counts[order], 1, Pow2(order));
        v' := MergeUpKeeps(z1, v1, if b > page then page else b, order + 1);
        return;
      }
    }
    FinishKeeps(z, v, page);
    ListedPagesChange(z.counts, order, z.counts[order] + 1, z.maxOrder);
    Distribute(z.counts[order], 1, Pow2(order));
    v' := v.(pend := None);
  }

  /** Freeing a live block removes exactly it from the live blocks and gives its pages back. */
  lemma FreeKeeps(z: Zone, v: View, page: nat) returns (v': View)
    requires ZoneOk(z, v) && Shape(z) && page in Live(z) && z.pages[page].order < z.maxOrder
    ensures var z' := Free(z, page);
            && ZoneOk(z', v') && z'.maxOrder == z.maxOrder && Live(z') == Live(z) - {page}
            && z'.freePages == z.freePages + Pow2(Live(z)[page])
  {
    hide Inv, ListedPages, Pow2, MergeUp;
    UnmarkKeeps(z, v, page);
    var order := z.pages[page].order;
    var z0 := z.(pages := z.pages[page := z.pages[page].(isAllocated := false)]);
    var z1 := z0.(freePages := z.freePages + Pow2(order));
    SameInv(z0, z1, v.(pend := Some(page)));
    v' := MergeUpKeeps(z1, v.(pend := Some(page)), page, order);
    assert Live(Free(z, page)) == Live(z) - {page};
  }

  // ----- coalescing

  /** With nothing allocated, every block has the top order. */
  lemma {:induction false} NoSmallBlock(z: Zone, v: View, p: nat)
    requires ZoneOk(z, v) && Live(z) == map[] && p in v.blocks
    ensures v.blocks[p] == z.maxOrder - 1
    decreases v.blocks[p]
  {
    hide Pow2, BuddyIndex, Listed, Aligned;
    var top, k := z.maxOrder - 1, v.blocks[p];
    HeadOk(v.own, v.blocks, top, p);
    if k < top {
      BuddyIsHead(v.own, v.blocks, top, p);
      var b := BuddyIndex(p, k);
      NothingMarked(z, v, p);
      NothingMarked(z, v, b);
      assert FreeAt(z.pages, v, p, k) && !FreeAt(z.pages, v, b, k);
      NoSmallBlock(z, v, b);
    }
  }

  lemma NothingMarked(z: Zone, v: View, p: nat)
    requires ZoneOk(z, v) && Live(z) == map[] && p in v.blocks
    ensures p < |z.pages| && !z.pages[p].isAllocated && FreeAt(z.pages, v, p, v.blocks[p])
  {
    hide Partition, Listed, Coalesced, Pow2;
    assert p < |z.pages|;
    assert p !in Live(z);
  }

  /** The zone as _createBuddyZone leaves it, apart from stale marks inside the block: one free block of the top order. */
  ghost predicate OneBlock(z: Zone) {
    && z.maxOrder > 0 && |z.areas| == |z.counts| == z.maxOrder && z.freePages == Pow2(z.maxOrder - 1)
    && z.areas[z.maxOrder - 1] == [0] && z.counts[z.maxOrder - 1] == 1
    && (forall k :: 0 <= k < z.maxOrder - 1 ==> z.areas[k] == [] && z.counts[k] == 0)
  }

  /** Freeing everything restores the single block of the top order. */
  lemma AllFreeIsOneBlock(z: Zone, v: View)
    requires ZoneOk(z, v) && Live(z) == map[]
    ensures OneBlock(z)
  {
    hide Pow2, BuddyIndex, Coalesced, Aligned, ListedPages;
    var top := z.maxOrder - 1;
    assert v.own[0] in v.blocks && v.own[0] == 0;
    forall p | p in v.blocks ensures p == 0 && v.blocks[p] == top {
      NoSmallBlock(z, v, p);
      HeadOk(v.own, v.blocks, top, p);
    }
    NothingMarked(z, v, 0);
    forall k, q | 0 <= k <= top && q in z.areas[k] ensures k == top && q == 0 {
      ListedAt(z, v, q, k);
    }
    ListedAt(z, v, 0, top);
    SingleEntry(z.areas[top]);
    assert forall k :: 0 <= k < top ==> (z.areas[k] != [] ==> z.areas[k][0] in z.areas[k]);
    OnlyTopListed(z.counts, top, z.maxOrder);
  }

  lemma SingleEntry(s: seq<nat>)
    requires NoRepeat(s) && 0 in s && forall q :: q in s ==> q == 0
    ensures s == [0]
  {
    assert s[0] in s && s[|s| - 1] in s;
  }

  lemma {:induction false} OnlyTopListed(counts: seq<int>, top: nat, n: nat)
    requires n <= |counts| && forall k :: 0 <= k < |counts| ==> counts[k] == if k == top then 1 else 0
    ensures ListedPages(counts, n) == if top < n then Pow2(top) else 0
  {
    if n > 0 { OnlyTopListed(counts, top, n - 1); }
  }

  // ----- a new zone

  /** _createBuddyZone: all pages in one free block. */
  function Fresh(maxOrder: nat): Zone
    requires maxOrder > 0
  {
    Zone(maxOrder, seq(Pow2(maxOrder - 1), i => Page(false, if i == 0 then maxOrder - 1 else 0)),
         seq(maxOrder, k => if k == maxOrder - 1 then [0] else []),
         seq(maxOrder, k => if k == maxOrder - 1 then 1 else 0),
         Pow2(maxOrder - 1))
  }

  ghost function FreshView(maxOrder: nat): View
    requires maxOrder > 0
  {
    View(seq(Pow2(maxOrder - 1), i => 0), map[0 := maxOrder - 1], None)
  }

  lemma FreshOk(maxOrder: nat)
    requires maxOrder > 0
    ensures ZoneOk(Fresh(maxOrder), FreshView(maxOrder)) && Live(Fresh(maxOrder)) == map[]
  {
    hide Pow2, BuddyIndex, ListedPages;
    var z, v := Fresh(maxOrder), FreshView(maxOrder);
    OnlyTopListed(z.counts, maxOrder - 1, maxOrder);
    assert Partition(v.own, v.blocks, maxOrder - 1) by { WholeIsPartition(maxOrder - 1); }
    assert Listed(z, v) by { FreshListed(maxOrder); }
  }

  lemma WholeIsPartition(top: nat)
    ensures Partition(seq(Pow2(top), i => 0), map[0 := top], top)
  {
    hide Pow2;
    MultipleMod(0, Pow2(top));
  }

  lemma FreshListed(maxOrder: nat)
    requires maxOrder > 0
    ensures Listed(Fresh(maxOrder), FreshView(maxOrder))
  {
    hide Pow2;
  }
}
