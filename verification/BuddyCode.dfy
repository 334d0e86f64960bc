/** The zone of jiukun/buddy.c as it is stored: an array of page words and an array of free areas, updated in place. */
module BuddyCode {
  import opened Bits
  import opened BuddyBlocks
  import opened BuddyZone
  import opened PageWord

  function PageOf(w: nat): Page {
    Page(MarksOf(w).isAllocated, MarksOf(w).order)
  }

  ghost function PagesOf(words: seq<nat>): (r: seq<Page>)
    ensures |r| == |words| && forall i :: 0 <= i < |r| ==> r[i] == PageOf(words[i])
  {
    seq(|words|, i requires 0 <= i < |words| => PageOf(words[i]))
  }

  lemma PagesOfUpdate(words: seq<nat>, p: nat, w: nat)
    requires p < |words|
    ensures PagesOf(words[p := w]) == PagesOf(words)[p := PageOf(w)]
  {
    hide PageOf;
  }

  lemma FreshValue(maxOrder: nat, words: seq<nat>, zoneId: nat, free: seq<seq<nat>>, count: seq<int>)
    requires maxOrder > 0 && |words| == Pow2(maxOrder - 1) && |free| == |count| == maxOrder
    requires forall i :: 0 <= i < |words| ==> MarksOf(words[i]) == Marks(false, false, if i == 0 then maxOrder - 1 else 0, zoneId)
    requires forall k :: 0 <= k < maxOrder ==> free[k] == if k == maxOrder - 1 then [0] else []
    requires forall k :: 0 <= k < maxOrder ==> count[k] == if k == maxOrder - 1 then 1 else 0
    ensures Zone(maxOrder, PagesOf(words), free, count, Pow2(maxOrder - 1)) == Fresh(maxOrder)
  {
    hide MarksOf, Pow2;
  }

  /** buddy_zone_t */
  class StoredZone {
    const zoneId: nat
    const maxOrder: nat
    const pages: array<nat>
    /** fa_jlFree and fa_u32Free */
    const free: array<seq<nat>>
    const count: array<int>
    var freePages: int

    ghost predicate Valid()
      reads pages, free, count
    {
      && 0 < maxOrder < 256 && zoneId < 256 && free.Length == count.Length == maxOrder
      && pages.Length == Pow2(maxOrder - 1)
      && (forall i :: 0 <= i < pages.Length ==> IsWord(pages[i]) && MarksOf(pages[i]).zone == zoneId)
    }

    ghost function Value(): Zone
      reads this, pages, free, count
    {
      Zone(maxOrder, PagesOf(pages[..]), free[..], count[..], freePages)
    }

    /** _createBuddyZone */
    constructor (maxOrder: nat, zoneId: nat)
      requires 0 < maxOrder < 256 && zoneId < 256
      ensures Valid() && this.maxOrder == maxOrder && this.zoneId == zoneId && fresh(pages) && fresh(free) && fresh(count)
      ensures Value() == Fresh(maxOrder)
    {
      hide Pow2, MarksOf, SetField, IsWord, PageOf, Fresh;
      this.maxOrder := maxOrder;
      this.zoneId := zoneId;
      pages := new nat[Pow2(maxOrder - 1)](i => 0);
      free := new seq<nat>[maxOrder](i => []);
      count := new int[maxOrder](i => 0);
      freePages := Pow2(maxOrder - 1);
      new;
      InitPages();
      count[maxOrder - 1] := 1;
      SetOrder(0, maxOrder - 1);
      free[maxOrder - 1] := [0] + free[maxOrder - 1];
      FreshValue(maxOrder, pages[..], zoneId, free[..], count[..]);
    }

    /** _initBuddyPage */
    method InitPages()
      requires zoneId < 256 && forall i :: 0 <= i < pages.Length ==> pages[i] == 0
      modifies pages
      ensures forall i :: 0 <= i < pages.Length ==> IsWord(pages[i]) && MarksOf(pages[i]) == Marks(false, false, 0, zoneId)
    {
      hide Pow2, MarksOf, SetField, IsWord;
      ZeroWord();
      SetMarks(0, zoneId);
      for i := 0 to pages.Length
        invariant forall j :: 0 <= j < i ==> IsWord(pages[j]) && MarksOf(pages[j]) == Marks(false, false, 0, zoneId)
        invariant forall j :: i <= j < pages.Length ==> pages[j] == 0
      {
        pages[i] := SetField(pages[i], 63, 56, zoneId);
      }
    }

    /** _setPageOrder; _clearPageOrder when k is 0 */
    method SetOrder(p: nat, k: nat)
      requires Valid() && p < pages.Length && k < 256
      modifies pages
      ensures Valid() && PagesOf(pages[..]) == PagesOf(old(pages[..]))[p := PageOf(old(pages[p])).(order := k)]
      ensures MarksOf(pages[p]) == MarksOf(old(pages[p])).(order := k)
      ensures forall i :: 0 <= i < pages.Length && i != p ==> pages[i] == old(pages[i])
    {
      hide SetField, IsWord, Pow2, MarksOf;
      SetMarks(pages[p], k);
      ghost var words := pages[..];
      pages[p] := SetField(pages[p], 55, 48, k);
      assert pages[..] == words[p := pages[p]];
      PagesOfUpdate(words, p, pages[p]);
    }

    /** setJpAllocated and clearJpAllocated */
    method SetAllocated(p: nat, on: bool)
      requires Valid() && p < pages.Length
      modifies pages
      ensures Valid() && Value() == old(Value()).(pages := old(Value()).pages[p := old(Value()).pages[p].(isAllocated := on)])
    {
      hide SetField, IsWord, Pow2, MarksOf;
      SetMarks(pages[p], if on then 1 else 0);
      ghost var words := pages[..];
      pages[p] := SetField(pages[p], 0, 0, if on then 1 else 0);
      assert pages[..] == words[p := pages[p]];
      PagesOfUpdate(words, p, pages[p]);
    }

    /** A block enters the front of its free list. */
    method AddToArea(p: nat, k: nat)
      requires Valid() && p < pages.Length && k < maxOrder
      modifies pages, free, count
      ensures Valid() && Value() == AddFree(old(Value()), p, k)
    {
      hide MarksOf, IsWord, Pow2;
      free[k] := [p] + free[k];
      count[k] := count[k] + 1;
      SetOrder(p, k);
    }

    /** A block leaves its free list and loses its order. */
    method TakeFromArea(p: nat, k: nat)
      requires Valid() && p < pages.Length && k < maxOrder
      modifies pages, free, count
      ensures Valid() && Value() == DropFree(old(Value()), p, k)
    {
      hide MarksOf, IsWord, Pow2, Without;
      free[k] := Without(free[k], p);
      SetOrder(p, 0);
      count[k] := count[k] - 1;
    }

    /** _splitPageList */
    method SplitPages(page: nat, low: nat, high: nat)
      requires Valid() && low <= high < maxOrder && page + Pow2(high) <= pages.Length
      modifies pages, free, count
      ensures Valid() && Value() == SplitPageList(old(Value()), page, low, high)
    {
      hide Valid, MarksOf, AddFree;
      ValidShape();
      var h, size := high, Pow2(high);
      while h > low
        invariant low <= h <= high && size == Pow2(h) && Valid() && page + Pow2(h) <= pages.Length
        invariant |Value().areas| == |Value().counts| == maxOrder
        invariant SplitPageList(Value(), page, low, h) == SplitPageList(old(Value()), page, low, high)
      {
        h := h - 1;
        size := size / 2;
        AddToArea(page + size, h);
        ValidShape();
      }
    }

    lemma ValidShape()
      requires Valid()
      ensures 0 < maxOrder < 256 && |Value().areas| == |Value().counts| == maxOrder == free.Length == count.Length
      ensures |Value().pages| == pages.Length == Pow2(maxOrder - 1)
    {
    }

    /** _rmqueue */
    method RemoveBlock(order: nat) returns (page: Option<nat>)
      requires Valid() && Shape(Value()) && order <= maxOrder
      modifies this`freePages, pages, free, count
      ensures Valid()
      ensures match RmQueue(old(Value()), order)
              case None => page == None && Value() == old(Value())
              case Some(r) => page == Some(r.1) && Value() == r.0
    {
      hide Valid, MarksOf, Pow2, SplitPageList;
      ValidShape();
      var cur := order;
      while cur < maxOrder
        invariant order <= cur <= maxOrder && Valid() && Value() == old(Value())
        invariant FirstArea(Value(), order) == FirstArea(Value(), cur)
      {
        if free[cur] != [] {
          var p := free[cur][0];
          assert p in Value().areas[cur];
          TakeFromArea(p, cur);
          freePages := freePages - Pow2(order);
          SplitPages(p, order, cur);
          return Some(p);
        }
        cur := cur + 1;
      }
      page := None;
    }

    /** _freeOnePage */
    method FreeOnePage(first: nat, firstOrder: nat)
      requires Valid() && Shape(Value()) && first < pages.Length && firstOrder == Value().pages[first].order < maxOrder
      modifies this`freePages, pages, free, count
      ensures Valid() && Value() == Free(old(Value()), first)
    {
      hide Valid, MarksOf, Pow2, BuddyIndex, DropFree, AddFree, Shape;
      ValidShape();
      SetAllocated(first, false);
      freePages := freePages + Pow2(firstOrder);
      ghost var z := Value();
      ValidShape();
      var page: nat, order: nat := first, firstOrder;
      while order < maxOrder - 1
        invariant page < pages.Length && order < maxOrder && Valid()
        invariant |Value().areas| == |Value().counts| == maxOrder && |Value().pages| == pages.Length
        invariant MergeUp(Value(), page, order) == MergeUp(z, first, firstOrder)
      {
        var buddy := BuddyIndex(page, order);
        BuddyIndexInZone(page, order, maxOrder - 1);
        if MarksOf(pages[buddy]).isAllocated || MarksOf(pages[buddy]).order != order {
          break;
        }
        TakeFromArea(buddy, order);
        ValidShape();
        page := if buddy > page then page else buddy;
        order := order + 1;
      }
      AddToArea(page, order);
    }

    /** _rmqueue and the marks that getJiukunPage sets on the block. */
    method Allocate(order: nat) returns (page: Option<nat>)
      requires Valid() && Shape(Value()) && order < maxOrder
      modifies this`freePages, pages, free, count
      ensures Valid()
      ensures match Alloc(old(Value()), order)
              case None => page == None && Value() == old(Value())
              case Some(r) => page == Some(r.1) && Value() == r.0
    {
      hide Valid, MarksOf, Pow2, RmQueue, Shape;
      ValidShape();
      RmQueueInside(Value(), order);
      page := RemoveBlock(order);
      if page.Some? {
        ValidShape();
        SetOrder(page.value, order);
        SetAllocated(page.value, true);
      }
    }

    /** putJiukunPage on a page of this zone: false is the abort. */
    method Release(page: nat) returns (ok: bool)
      requires Valid() && Shape(Value()) && page < pages.Length
      modifies this`freePages, pages, free, count
      ensures Valid() && ok == old(Value()).pages[page].isAllocated
      ensures Value() == if ok then Free(old(Value()), page) else old(Value())
    {
      hide MarksOf, Pow2, Free, IsWord;
      ok := MarksOf(pages[page]).isAllocated;
      if ok { FreeOnePage(page, MarksOf(pages[page]).order); }
    }
  }

  lemma RmQueueInside(z: Zone, order: nat)
    requires Shape(z) && order <= z.maxOrder
    ensures RmQueue(z, order).Some? ==> |RmQueue(z, order).value.0.pages| == |z.pages| && RmQueue(z, order).value.1 < |z.pages|
  {
    hide SplitPageList, FirstArea, Pow2;
    var cur := FirstArea(z, order);
    if cur < z.maxOrder { assert z.areas[cur][0] in z.areas[cur]; }
  }
}
