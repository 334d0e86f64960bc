/** The page allocator of jiukun/buddy.c as it is stored: an array of zones, each changed in place. */
module BuddyAllocator {
  import opened Bits
  import opened BuddyZone
  import opened BuddySystem
  import opened BuddyCode

  ghost function ZoneValues(zones: seq<StoredZone>): (r: seq<Zone>)
    reads zones, set z | z in zones :: z.pages, set z | z in zones :: z.free, set z | z in zones :: z.count
    ensures |r| == |zones| && forall i :: 0 <= i < |r| ==> r[i] == zones[i].Value()
  {
    if zones == [] then [] else ZoneValues(zones[..|zones| - 1]) + [zones[|zones| - 1].Value()]
  }

  /** No two zones share storage. */
  ghost predicate ZonesApart(zones: seq<StoredZone>) {
    forall i, j :: 0 <= i < j < |zones| ==>
      zones[i] != zones[j] && zones[i].pages != zones[j].pages && zones[i].free != zones[j].free && zones[i].count != zones[j].count
  }

  lemma OthersApart(zones: seq<StoredZone>, i: nat)
    requires ZonesApart(zones) && i < |zones|
    ensures forall j :: 0 <= j < |zones| && j != i ==>
              zones[j] != zones[i] && zones[j].pages != zones[i].pages && zones[j].free != zones[i].free && zones[j].count != zones[i].count
  {
  }

  lemma AddedApart(zones: seq<StoredZone>, z: StoredZone)
    requires ZonesApart(zones)
    requires forall j :: 0 <= j < |zones| ==> zones[j] != z && zones[j].pages != z.pages && zones[j].free != z.free && zones[j].count != z.count
    ensures ZonesApart(zones + [z])
  {
  }

  /** internal_jiukun_buddy_t */
  class PageAllocator {
    const maxOrder: nat
    const noGrow: bool
    var zones: seq<StoredZone>
    var pools: seq<nat>

    ghost predicate Valid()
      reads this, zones, set z | z in zones :: z.pages, set z | z in zones :: z.free, set z | z in zones :: z.count
    {
      && 0 < maxOrder < 256 && |pools| == |zones| <= MAX_ZONES && ZonesApart(zones)
      && forall i :: 0 <= i < |zones| ==> zones[i].Valid() && zones[i].maxOrder == maxOrder && zones[i].zoneId == i
    }

    ghost function Value(): Buddy
      reads this, zones, set z | z in zones :: z.pages, set z | z in zones :: z.free, set z | z in zones :: z.count
    {
      Buddy(maxOrder, noGrow, ZoneValues(zones), pools)
    }

    /** The first loop of _allocPages. */
    method Choose(pages: nat) returns (best: Option<nat>)
      requires Valid()
      ensures best == BestFit(FreeCounts(Value()), pages, |zones|)
    {
      hide Valid, ZoneValues, StoredZone.Valid;
      best := None;
      var left := 0;
      for i := 0 to |zones|
        invariant best == BestFit(FreeCounts(Value()), pages, i) && (best.Some? ==> left == zones[best.value].freePages - pages)
      {
        if zones[i].freePages >= pages && (best.None? || left > zones[i].freePages - pages) {
          left := zones[i].freePages - pages;
          best := Some(i);
        }
      }
    }

    /** _allocPages in the zone that was chosen. */
    method FromZone(i: nat, order: nat) returns (page: Option<nat>)
      requires Valid() && Ready(Value()) && i < |zones| && order < maxOrder
      modifies zones[i], zones[i].pages, zones[i].free, zones[i].count
      ensures Valid()
      ensures match Alloc(old(Value()).zones[i], order)
              case None => page == None && Value() == old(Value())
              case Some(r) => page == Some(r.1) && Value() == old(Value()).(zones := old(Value()).zones[i := r.0])
    {
      hide ZoneValues, StoredZone.Valid, Shape, Alloc, ZonesApart;
      OthersApart(zones, i);
      page := zones[i].Allocate(order);
    }

    /** initJiukunBuddy, with the first pool at the given address */
    constructor (maxOrder: nat, noGrow: bool, pool: nat)
      requires 0 < maxOrder < 256
      ensures Valid() && Value() == Initial(maxOrder, noGrow, pool) && this.maxOrder == maxOrder
      ensures |zones| == 1 && fresh(zones[0]) && fresh(zones[0].pages) && fresh(zones[0].free) && fresh(zones[0].count)
    {
      hide StoredZone.Valid, Fresh;
      this.maxOrder := maxOrder;
      this.noGrow := noGrow;
      pools := [pool];
      var z := new StoredZone(maxOrder, 0);
      zones := [z];
    }

    /** The end of _allocPages: a new zone, and a block from it. */
    method FromNew(order: nat, pool: nat) returns (page: nat)
      requires Valid() && Ready(Value()) && order < maxOrder && |zones| < MAX_ZONES
      modifies this
      ensures Valid() && |zones| == |old(zones)| + 1 && zones[..|old(zones)|] == old(zones)
      ensures fresh(zones[|old(zones)|]) && fresh(zones[|old(zones)|].pages) && fresh(zones[|old(zones)|].free) && fresh(zones[|old(zones)|].count)
      ensures Shape(Fresh(maxOrder)) && Alloc(Fresh(maxOrder), order).Some?
      ensures var r := Alloc(Fresh(maxOrder), order).value;
              page == r.1 && Value() == old(Value()).(zones := old(Value()).zones + [r.0], pools := old(pools) + [pool])
    {
      hide ZoneValues, StoredZone.Valid, Shape, Alloc, Fresh, ZonesApart, Ready;
      FreshShape(maxOrder);
      FreshServes(maxOrder, order);
      var z := new StoredZone(maxOrder, |zones|);
      var p := z.Allocate(order);
      page := p.value;
      AddedApart(zones, z);
      zones, pools := zones + [z], pools + [pool];
    }

    lemma ZoneCount()
      requires Valid()
      ensures |pools| == |zones| <= MAX_ZONES && |Value().zones| == |zones|
    {
      hide ZoneValues;
    }

    /** The first half of _allocPages: a block from the zone that fits best. */
    method TryZones(order: nat) returns (page: Option<PageRef>)
      requires Valid() && Ready(Value()) && order < maxOrder
      modifies zones, set z | z in zones :: z.pages, set z | z in zones :: z.free, set z | z in zones :: z.count
      ensures Valid()
      ensures match FromZones(old(Value()), order)
              case None => page == None && Value() == old(Value())
              case Some(r) => page == Some(r.1) && Value() == r.0
    {
      hide ZoneValues, Valid, Alloc, BestFit, Pow2, Shape;
      ZoneCount();
      page := None;
      var best := Choose(Pow2(order));
      if best.Some? {
        var p := FromZone(best.value, order);
        if p.Some? { page := Some(PageRef(best.value, p.value)); }
      }
    }

    /** The second half: a block from a new zone, if there may be one. */
    method TryNew(order: nat, pool: Option<nat>) returns (page: Option<PageRef>)
      requires Valid() && Ready(Value()) && order < maxOrder
      modifies this
      ensures Valid() && old(zones) <= zones
      ensures match FromNewZone(old(Value()), order, pool)
              case None => page == None && Value() == old(Value())
              case Some(r) => page == Some(r.1) && Value() == r.0
    {
      hide ZoneValues, Valid, Alloc, Fresh, Shape;
      ZoneCount();
      page := None;
      if |zones| < MAX_ZONES && !noGrow && pool.Some? {
        var p := FromNew(order, pool.value);
        page := Some(PageRef(|zones| - 1, p));
      }
    }

    /** getJiukunPage, one round; pool is where the system would place a new pool */
    method GetPage(order: nat, pool: Option<nat>) returns (r: Outcome)
      requires Valid() && Ready(Value())
      modifies this, zones, set z | z in zones :: z.pages, set z | z in zones :: z.free, set z | z in zones :: z.count
      ensures Valid() && (Value(), r) == Get(old(Value()), order, pool) && old(zones) <= zones
    {
      hide Value, Valid, FromZones, FromNewZone;
      SameOrder();
      if order >= maxOrder { return InvalidOrder; }
      var page := TryZones(order);
      if page.None? { page := TryNew(order, pool); }
      r := if page.Some? then Got(page.value) else OutOfMemory;
    }

    lemma SameOrder()
      ensures Value().maxOrder == maxOrder
    {
    }

    /** putJiukunPage; false is the abort */
    method PutPage(p: PageRef) returns (ok: bool)
      requires Valid() && Ready(Value()) && p.zone < |zones| && p.page < |Value().zones[p.zone].pages|
      modifies zones, set z | z in zones :: z.pages, set z | z in zones :: z.free, set z | z in zones :: z.count
      ensures Valid() && ok == Put(old(Value()), p).Some? && Value() == if ok then Put(old(Value()), p).value else old(Value())
    {
      hide ZoneValues, StoredZone.Valid, Free, ZonesApart, Pow2;
      OthersApart(zones, p.zone);
      ok := zones[p.zone].Release(p.page);
    }
  }
}
