/** All zones of the buddy allocator (jiukun/buddy.c): zone choice, growth, addresses, and runs of allocations and releases. */
module BuddySystem {
  import opened Bits
  import opened BuddyBlocks
  import opened BuddyZone

  const PAGE_SIZE: nat := 4096
  const MAX_ZONES: nat := 20

  /** internal_jiukun_buddy_t; pools[i] is the address of the memory pool of zone i. */
  datatype Buddy = Buddy(maxOrder: nat, noGrow: bool, zones: seq<Zone>, pools: seq<nat>)

  /** A jiukun_page_t pointer: the zone whose page array it points into, and the index there. */
  datatype PageRef = PageRef(zone: nat, page: nat)

  ghost predicate Ready(b: Buddy) {
    b.maxOrder > 0 && |b.pools| == |b.zones| && forall i :: 0 <= i < |b.zones| ==> b.zones[i].maxOrder == b.maxOrder && Shape(b.zones[i])
  }

  // ----- operations

  /** The zone with the fewest free pages among those that have enough; the first of them on a tie. */
  function BestFit(free: seq<int>, pages: nat, n: nat): (r: Option<nat>)
    requires n <= |free|
    ensures r.None? <==> forall i :: 0 <= i < n ==> free[i] < pages
    ensures r.Some? ==> r.value < n && free[r.value] >= pages
    ensures r.Some? ==> forall i :: 0 <= i < n && free[i] >= pages ==> free[r.value] < free[i] || (free[r.value] == free[i] && r.value <= i)
  {
    if n == 0 then None
    else
      var best := BestFit(free, pages, n - 1);
      if free[n - 1] >= pages && (best.None? || free[n - 1] < free[best.value]) then Some(n - 1) else best
  }

  ghost function FreeCounts(b: Buddy): (r: seq<int>)
    ensures |r| == |b.zones| && forall i :: 0 <= i < |r| ==> r[i] == b.zones[i].freePages
  {
    seq(|b.zones|, i requires 0 <= i < |b.zones| => b.zones[i].freePages)
  }

  /** A block from the chosen zone. */
  ghost function FromZones(b: Buddy, order: nat): Option<(Buddy, PageRef)>
    requires Ready(b) && order < b.maxOrder
  {
    match BestFit(FreeCounts(b), Pow2(order), |b.zones|)
    case None => None
    case Some(i) =>
      match Alloc(b.zones[i], order)
      case None => None
      case Some(r) => Some((b.(zones := b.zones[i := r.0]), PageRef(i, r.1)))
  }

  /** A block from a new zone, whose pool the system places at the given address; None when it has no memory. */
  ghost function FromNewZone(b: Buddy, order: nat, pool: Option<nat>): Option<(Buddy, PageRef)>
    requires Ready(b) && order < b.maxOrder
  {
    if |b.zones| == MAX_ZONES || b.noGrow || pool.None? then None
    else
      FreshShape(b.maxOrder);
      match Alloc(Fresh(b.maxOrder), order)
      case None => None
      case Some(r) => Some((b.(zones := b.zones + [r.0], pools := b.pools + [pool.value]), PageRef(|b.zones|, r.1)))
  }

  lemma FreshShape(maxOrder: nat)
    requires maxOrder > 0
    ensures Shape(Fresh(maxOrder))
  {
    FreshOk(maxOrder);
    InvShape(Fresh(maxOrder), FreshView(maxOrder));
  }

  datatype Outcome = Got(page: PageRef) | InvalidOrder | OutOfMemory

  /** getJiukunPage, one round of its loop: _allocPages and then the page marks. */
  ghost function Get(b: Buddy, order: nat, pool: Option<nat>): (Buddy, Outcome)
    requires Ready(b)
  {
    if order >= b.maxOrder then (b, InvalidOrder)
    else
      match FromZones(b, order)
      case Some(r) => (r.0, Got(r.1))
      case None =>
        match FromNewZone(b, order, pool)
        case Some(r) => (r.0, Got(r.1))
        case None => (b, OutOfMemory)
  }

  /** putJiukunPage; None is the abort on a page that is not allocated. */
  ghost function Put(b: Buddy, p: PageRef): Option<Buddy>
    requires Ready(b) && p.zone < |b.zones| && p.page < |b.zones[p.zone].pages|
  {
    var z := b.zones[p.zone];
    if !z.pages[p.page].isAllocated then None
    else Some(b.(zones := b.zones[p.zone := Free(z, p.page)]))
  }

  // ----- the invariant

  ghost function PoolSize(b: Buddy): nat
    requires b.maxOrder > 0
  {
    PAGE_SIZE * Pow2(b.maxOrder - 1)
  }

  ghost predicate PoolsApart(b: Buddy)
    requires b.maxOrder > 0
  {
    forall i, j :: 0 <= i < j < |b.pools| ==> b.pools[i] + PoolSize(b) <= b.pools[j] || b.pools[j] + PoolSize(b) <= b.pools[i]
  }

  /** What the system's allocator promises of the memory it hands out for a new pool. */
  ghost predicate PoolFits(b: Buddy, pool: Option<nat>)
    requires b.maxOrder > 0
  {
    pool.Some? ==> forall i :: 0 <= i < |b.pools| ==> b.pools[i] + PoolSize(b) <= pool.value || pool.value + PoolSize(b) <= b.pools[i]
  }

  ghost predicate SystemOk(b: Buddy, vs: seq<View>) {
    && b.maxOrder > 0 && |vs| == |b.pools| == |b.zones| <= MAX_ZONES && PoolsApart(b)
    && forall i :: 0 <= i < |b.zones| ==> b.zones[i].maxOrder == b.maxOrder && ZoneOk(b.zones[i], vs[i])
  }

  lemma SystemReady(b: Buddy, vs: seq<View>)
    requires SystemOk(b, vs)
    ensures Ready(b)
  {
    hide ZoneOk, Shape, PoolsApart;
    forall i | 0 <= i < |b.zones| ensures Shape(b.zones[i]) { ZoneShape(b.zones[i], vs[i]); }
  }

  lemma ZoneShape(z: Zone, v: View)
    requires ZoneOk(z, v)
    ensures Shape(z) && z.maxOrder > 0
  {
    hide Inv;
    InvShape(z, v);
  }

  /** The allocated blocks of all zones and their orders. */
  ghost function Blocks(b: Buddy): map<PageRef, nat> {
    map i: nat, p: nat | i < |b.zones| && p < |b.zones[i].pages| && b.zones[i].pages[p].isAllocated :: PageRef(i, p) := b.zones[i].pages[p].order
  }

  lemma BlocksOfZone(b: Buddy, p: PageRef)
    ensures p in Blocks(b) <==> p.page in LiveIn(b, p.zone)
    ensures p in Blocks(b) ==> Blocks(b)[p] == LiveIn(b, p.zone)[p.page]
  {
  }

  // ----- what one call does

  /** Pages of the blocks in live whose heads lie below n. */
  ghost function HeldPages(live: map<nat, nat>, n: nat): nat {
    if n == 0 then 0 else HeldPages(live, n - 1) + if n - 1 in live then Pow2(live[n - 1]) else 0
  }

  lemma {:induction false} HeldMore(live: map<nat, nat>, p: nat, k: nat, n: nat)
    requires p !in live
    ensures HeldPages(live[p := k], n) == HeldPages(live, n) + if p < n then Pow2(k) else 0
  {
    hide Pow2;
    if n > 0 { HeldMore(live, p, k, n - 1); }
  }

  /** Every page is either free or part of an allocated block. */
  ghost predicate Conserved(z: Zone) {
    z.freePages + HeldPages(Live(z), |z.pages|) == |z.pages|
  }

  ghost predicate AllConserved(b: Buddy) {
    forall i :: 0 <= i < |b.zones| ==> Conserved(b.zones[i])
  }

  lemma AllocConserves(z: Zone, v: View, order: nat) returns (v': View)
    requires ZoneOk(z, v) && order < z.maxOrder && Shape(z) && Alloc(z, order).Some?
    ensures var (z', page) := Alloc(z, order).value;
            && ZoneOk(z', v') && z'.maxOrder == z.maxOrder && page !in Live(z) && Live(z') == Live(z)[page := order]
            && (Conserved(z) ==> Conserved(z'))
  {
    hide ZoneOk, Pow2, Alloc, HeldPages;
    v' := AllocKeeps(z, v, order);
    var (z', page) := Alloc(z, order).value;
    HeldMore(Live(z), page, order, |z.pages|);
    ZoneShape(z', v');
    assert page in Live(z');
  }

  lemma FreeConserves(z: Zone, v: View, page: nat) returns (v': View)
    requires ZoneOk(z, v) && Shape(z) && page in Live(z) && z.pages[page].order < z.maxOrder
    ensures var z' := Free(z, page);
            && ZoneOk(z', v') && z'.maxOrder == z.maxOrder && Live(z') == Live(z) - {page}
            && (Conserved(z) ==> Conserved(z'))
  {
    hide ZoneOk, Pow2, Free, HeldPages;
    v' := FreeKeeps(z, v, page);
    var z' := Free(z, page);
    var k := Live(z)[page];
    assert Live(z')[page := k] == Live(z);
    HeldMore(Live(z'), page, k, |z.pages|);
    ZoneShape(z', v');
  }

  lemma FreshConserved(maxOrder: nat)
    requires maxOrder > 0
    ensures Conserved(Fresh(maxOrder))
  {
    hide Pow2;
    FreshOk(maxOrder);
    HeldNothing(Pow2(maxOrder - 1));
  }

  lemma {:induction false} HeldNothing(n: nat)
    ensures HeldPages(map[], n) == 0
  {
    if n > 0 { HeldNothing(n - 1); }
  }

  ghost predicate SameElsewhere(b: Buddy, b': Buddy, i: nat) {
    forall q: PageRef :: q.zone != i ==> (q in Blocks(b) <==> q in Blocks(b')) && (q in Blocks(b) ==> Blocks(b)[q] == Blocks(b')[q])
  }

  ghost function LiveIn(b: Buddy, i: nat): map<nat, nat> {
    if i < |b.zones| then Live(b.zones[i]) else map[]
  }

  /** One zone changed. */
  lemma ZoneReplaced(b: Buddy, vs: seq<View>, i: nat, z: Zone, v: View)
    requires SystemOk(b, vs) && i < |b.zones| && ZoneOk(z, v) && z.maxOrder == b.maxOrder
    ensures SystemOk(b.(zones := b.zones[i := z]), vs[i := v])
    ensures AllConserved(b) && Conserved(z) ==> AllConserved(b.(zones := b.zones[i := z]))
    ensures SameElsewhere(b, b.(zones := b.zones[i := z]), i)
  {
    hide ZoneOk, Conserved, Pow2;
  }

  /** One zone added. */
  lemma ZoneAdded(b: Buddy, vs: seq<View>, z: Zone, v: View, pool: nat)
    requires SystemOk(b, vs) && |b.zones| < MAX_ZONES && ZoneOk(z, v) && z.maxOrder == b.maxOrder && PoolFits(b, Some(pool))
    ensures SystemOk(b.(zones := b.zones + [z], pools := b.pools + [pool]), vs + [v])
    ensures AllConserved(b) && Conserved(z) ==> AllConserved(b.(zones := b.zones + [z], pools := b.pools + [pool]))
    ensures SameElsewhere(b, b.(zones := b.zones + [z], pools := b.pools + [pool]), |b.zones|)
  {
    hide ZoneOk, Conserved, Pow2;
  }

  /** The allocated blocks before and after a successful call. */
  ghost predicate Gained(b: Buddy, b': Buddy, p: PageRef, order: nat) {
    p !in Blocks(b) && Blocks(b') == Blocks(b)[p := order]
  }

  lemma FromZonesKeeps(b: Buddy, vs: seq<View>, order: nat) returns (vs': seq<View>)
    requires SystemOk(b, vs) && Ready(b) && order < b.maxOrder && FromZones(b, order).Some?
    ensures var (b', p) := FromZones(b, order).value;
            SystemOk(b', vs') && Gained(b, b', p, order) && (AllConserved(b) ==> AllConserved(b')) && b'.maxOrder == b.maxOrder
  {
    hide ZoneOk, Conserved, Pow2, Alloc, BestFit, Shape;
    var i := BestFit(FreeCounts(b), Pow2(order), |b.zones|).value;
    var v := AllocConserves(b.zones[i], vs[i], order);
    var (z, page) := Alloc(b.zones[i], order).value;
    ZoneReplaced(b, vs, i, z, v);
    vs' := vs[i := v];
    GainedInZone(b, b.(zones := b.zones[i := z]), i, page, order);
  }

  lemma GainedInZone(b: Buddy, b': Buddy, i: nat, page: nat, order: nat)
    requires SameElsewhere(b, b', i) && page !in LiveIn(b, i) && LiveIn(b', i) == LiveIn(b, i)[page := order]
    ensures Gained(b, b', PageRef(i, page), order)
  {
    hide Blocks, LiveIn;
    forall q: PageRef
      ensures q in Blocks(b') <==> q == PageRef(i, page) || q in Blocks(b)
      ensures q in Blocks(b') ==> Blocks(b')[q] == if q == PageRef(i, page) then order else Blocks(b)[q]
    {
      BlocksOfZone(b, q);
      BlocksOfZone(b', q);
    }
    BlocksOfZone(b, PageRef(i, page));
    assert Blocks(b') == Blocks(b)[PageRef(i, page) := order];
  }

  /** A new zone can serve every order. */
  lemma FreshServes(maxOrder: nat, order: nat)
    requires order < maxOrder && Shape(Fresh(maxOrder))
    ensures Alloc(Fresh(maxOrder), order).Some?
  {
    var z := Fresh(maxOrder);
    var cur := FirstArea(z, order);
    assert z.areas[maxOrder - 1] != [];
  }

  lemma FromNewZoneKeeps(b: Buddy, vs: seq<View>, order: nat, pool: Option<nat>) returns (vs': seq<View>)
    requires SystemOk(b, vs) && Ready(b) && order < b.maxOrder && PoolFits(b, pool) && FromNewZone(b, order, pool).Some?
    ensures var (b', p) := FromNewZone(b, order, pool).value;
            SystemOk(b', vs') && Gained(b, b', p, order) && (AllConserved(b) ==> AllConserved(b')) && b'.maxOrder == b.maxOrder
  {
    hide ZoneOk, Conserved, Pow2, Alloc, Shape, Fresh, Live, PoolsApart, PoolFits, Blocks;
    FreshOk(b.maxOrder);
    FreshShape(b.maxOrder);
    FreshConserved(b.maxOrder);
    FreshMaxOrder(b.maxOrder);
    var v := AllocConserves(Fresh(b.maxOrder), FreshView(b.maxOrder), order);
    var (z, page) := Alloc(Fresh(b.maxOrder), order).value;
    ZoneAdded(b, vs, z, v, pool.value);
    vs' := vs + [v];
    GainedInZone(b, b.(zones := b.zones + [z], pools := b.pools + [pool.value]), |b.zones|, page, order);
  }

  lemma FreshMaxOrder(maxOrder: nat)
    requires maxOrder > 0
    ensures Fresh(maxOrder).maxOrder == maxOrder
  {
  }

  /** getJiukunPage keeps the invariant; a block it hands out was nowhere allocated and is the only change. */
  lemma GetKeeps(b: Buddy, vs: seq<View>, order: nat, pool: Option<nat>) returns (vs': seq<View>)
    requires SystemOk(b, vs) && Ready(b) && PoolFits(b, pool)
    ensures var (b', r) := Get(b, order, pool);
            && SystemOk(b', vs') && b'.maxOrder == b.maxOrder && (AllConserved(b) ==> AllConserved(b'))
            && (if r.Got? then Gained(b, b', r.page, order) else b' == b)
  {
    hide SystemOk, Ready, PoolFits, Gained, AllConserved, FromZones, FromNewZone;
    vs' := vs;
    if order < b.maxOrder {
      if FromZones(b, order).Some? {
        vs' := FromZonesKeeps(b, vs, order);
      } else if FromNewZone(b, order, pool).Some? {
        vs' := FromNewZoneKeeps(b, vs, order, pool);
      }
    }
  }

  /** Pools never move. */
  lemma GetKeepsPools(b: Buddy, order: nat, pool: Option<nat>)
    requires Ready(b)
    ensures b.pools <= Get(b, order, pool).0.pools
  {
    hide Alloc, BestFit, Fresh, Shape;
  }

  /** The zone _allocPages looks in has a free block that is large enough. */
  ghost predicate ChosenZoneServes(b: Buddy, vs: seq<View>, order: nat)
    requires |vs| == |b.zones|
  {
    var best := BestFit(FreeCounts(b), Pow2(order), |b.zones|);
    best.Some? && exists p: nat, k: nat :: k >= order && FreeAt(b.zones[best.value].pages, vs[best.value], p, k)
  }

  /** Exactly when getJiukunPage succeeds: with room to grow always, otherwise when the chosen zone has a block. */
  lemma GetSucceedsIff(b: Buddy, vs: seq<View>, order: nat, pool: Option<nat>)
    requires SystemOk(b, vs) && Ready(b)
    ensures Get(b, order, pool).1.InvalidOrder? <==> order >= b.maxOrder
    ensures Get(b, order, pool).1.Got? <==>
            order < b.maxOrder && (ChosenZoneServes(b, vs, order) || (|b.zones| < MAX_ZONES && !b.noGrow && pool.Some?))
  {
    hide ZoneOk, Pow2, Alloc, Shape, Fresh, BestFit, FreeAt, PoolsApart;
    if order < b.maxOrder {
      FreshShape(b.maxOrder);
      FreshServes(b.maxOrder, order);
      var best := BestFit(FreeCounts(b), Pow2(order), |b.zones|);
      if best.Some? { AllocFailsIff(b.zones[best.value], vs[best.value], order); }
    }
  }

  /** putJiukunPage aborts exactly on a page that heads no allocated block; otherwise it takes that block out and changes no other. */
  lemma PutKeeps(b: Buddy, vs: seq<View>, p: PageRef) returns (vs': seq<View>)
    requires SystemOk(b, vs) && Ready(b) && p.zone < |b.zones| && p.page < |b.zones[p.zone].pages|
    ensures Put(b, p).Some? <==> p in Blocks(b)
    ensures Put(b, p).Some? ==>
              var b' := Put(b, p).value;
              SystemOk(b', vs') && Blocks(b') == Blocks(b) - {p} && (AllConserved(b) ==> AllConserved(b')) && b'.maxOrder == b.maxOrder
  {
    hide ZoneOk, Conserved, Pow2, Free, PoolsApart;
    var i := p.zone;
    vs' := vs;
    ZoneShape(b.zones[i], vs[i]);
    BlocksOfZone(b, p);
    if p in Blocks(b) {
      var v := FreeConserves(b.zones[i], vs[i], p.page);
      ZoneReplaced(b, vs, i, Free(b.zones[i], p.page), v);
      vs' := vs[i := v];
      LostInZone(b, b.(zones := b.zones[i := Free(b.zones[i], p.page)]), p);
    }
  }

  lemma LostInZone(b: Buddy, b': Buddy, p: PageRef)
    requires SameElsewhere(b, b', p.zone) && p.page in LiveIn(b, p.zone) && LiveIn(b', p.zone) == LiveIn(b, p.zone) - {p.page}
    ensures Blocks(b') == Blocks(b) - {p}
  {
    hide Blocks, LiveIn;
    forall q: PageRef
      ensures q in Blocks(b') <==> q != p && q in Blocks(b)
      ensures q in Blocks(b') ==> Blocks(b')[q] == Blocks(b)[q]
    {
      BlocksOfZone(b, q);
      BlocksOfZone(b', q);
    }
  }

  // ----- addresses

  ghost predicate InSystem(b: Buddy, p: PageRef) {
    b.maxOrder > 0 && p.zone < |b.pools| && p.page < Pow2(b.maxOrder - 1)
  }

  /** jiukunPageToAddr */
  function PageToAddr(b: Buddy, p: PageRef): nat
    requires p.zone < |b.pools|
  {
    b.pools[p.zone] + PAGE_SIZE * p.page
  }

  ghost predicate InPool(b: Buddy, addr: nat, i: nat)
    requires b.maxOrder > 0 && i < |b.pools|
  {
    b.pools[i] <= addr < b.pools[i] + PoolSize(b)
  }

  /** The page an address lies in, looking at the zones from i on; None if it lies in none of their pools. */
  function PageOfAddr(b: Buddy, addr: nat, i: nat): (r: Option<PageRef>)
    requires b.maxOrder > 0 && i <= |b.pools|
    ensures r.None? <==> forall j :: i <= j < |b.pools| ==> !InPool(b, addr, j)
    ensures r.Some? ==> InSystem(b, r.value) && PageToAddr(b, r.value) <= addr < PageToAddr(b, r.value) + PAGE_SIZE
    decreases |b.pools| - i
  {
    if i == |b.pools| then None
    else if b.pools[i] <= addr < b.pools[i] + PAGE_SIZE * Pow2(b.maxOrder - 1) then
      assert InPool(b, addr, i);
      PageIndexInZone(addr - b.pools[i], Pow2(b.maxOrder - 1));
      Some(PageRef(i, (addr - b.pools[i]) / PAGE_SIZE))
    else PageOfAddr(b, addr, i + 1)
  }

  lemma PageIndexInZone(offset: nat, pages: nat)
    requires offset < PAGE_SIZE * pages
    ensures offset / PAGE_SIZE < pages && PAGE_SIZE * (offset / PAGE_SIZE) <= offset < PAGE_SIZE * (offset / PAGE_SIZE) + PAGE_SIZE
  {
    DivModDefinition(offset, PAGE_SIZE);
  }

  /** addrToJiukunPage; None is the abort on an address outside every pool. */
  method AddrToPage(b: Buddy, addr: nat) returns (r: Option<PageRef>)
    requires b.maxOrder > 0
    ensures r == PageOfAddr(b, addr, 0)
  {
    hide Pow2;
    var i := 0;
    while i < |b.pools|
      invariant i <= |b.pools| && PageOfAddr(b, addr, 0) == PageOfAddr(b, addr, i)
    {
      if b.pools[i] <= addr < b.pools[i] + PAGE_SIZE * Pow2(b.maxOrder - 1) {
        return Some(PageRef(i, (addr - b.pools[i]) / PAGE_SIZE));
      }
      i := i + 1;
    }
    r := None;
  }

  /** An address lies in one page only, so the conversions are inverse on every page of every zone. */
  lemma AddrDeterminesPage(b: Buddy, p: PageRef, q: PageRef, addr: nat)
    requires b.maxOrder > 0 && PoolsApart(b) && InSystem(b, p) && InSystem(b, q)
    requires PageToAddr(b, p) <= addr < PageToAddr(b, p) + PAGE_SIZE && PageToAddr(b, q) <= addr < PageToAddr(b, q) + PAGE_SIZE
    ensures p == q && InPool(b, addr, p.zone)
  {
    hide Pow2;
  }

  /** Converting a page to its address and back gives the page, for any address inside the page. */
  lemma PageRoundTrip(b: Buddy, p: PageRef, offset: nat)
    requires b.maxOrder > 0 && PoolsApart(b) && InSystem(b, p) && offset < PAGE_SIZE
    ensures PageOfAddr(b, PageToAddr(b, p) + offset, 0) == Some(p)
  {
    hide Pow2, PageOfAddr, PoolsApart;
    var addr := PageToAddr(b, p) + offset;
    AddrDeterminesPage(b, p, p, addr);
    AddrDeterminesPage(b, p, PageOfAddr(b, addr, 0).value, addr);
  }

  /** The bytes of an allocated block. */
  ghost function BlockSize(order: nat): nat {
    PAGE_SIZE * Pow2(order)
  }

  /** Allocated blocks lie inside their pools, and no two share a byte. */
  lemma BlocksDisjoint(b: Buddy, vs: seq<View>, p: PageRef, q: PageRef)
    requires SystemOk(b, vs) && p in Blocks(b) && q in Blocks(b)
    ensures p.zone < |b.pools| && q.zone < |b.pools|
    ensures Blocks(b)[p] < b.maxOrder && Aligned(p.page, Blocks(b)[p])
    ensures b.pools[p.zone] <= PageToAddr(b, p) && PageToAddr(b, p) + BlockSize(Blocks(b)[p]) <= b.pools[p.zone] + PoolSize(b)
    ensures p != q ==> PageToAddr(b, p) + BlockSize(Blocks(b)[p]) <= PageToAddr(b, q) || PageToAddr(b, q) + BlockSize(Blocks(b)[q]) <= PageToAddr(b, p)
  {
    hide ZoneOk, Pow2, Aligned, Live, Blocks;
    BlockInPool(b, vs, p);
    BlockInPool(b, vs, q);
    if p.zone == q.zone {
      LiveBlocksDisjoint(b.zones[p.zone], vs[p.zone]);
      var live := Live(b.zones[p.zone]);
      assert p != q ==> Apart(p.page, live[p.page], q.page, live[q.page]);
    }
  }

  lemma BlockInPool(b: Buddy, vs: seq<View>, p: PageRef)
    requires SystemOk(b, vs) && p in Blocks(b)
    ensures p.zone < |b.pools| && p.page in Live(b.zones[p.zone]) && Blocks(b)[p] == Live(b.zones[p.zone])[p.page] < b.maxOrder
    ensures Aligned(p.page, Blocks(b)[p])
    ensures b.pools[p.zone] <= PageToAddr(b, p) && PageToAddr(b, p) + BlockSize(Blocks(b)[p]) <= b.pools[p.zone] + PoolSize(b)
  {
    hide ZoneOk, Pow2, Aligned, Live;
    BlocksOfZone(b, p);
    LiveBlocksDisjoint(b.zones[p.zone], vs[p.zone]);
    ZoneSize(b.zones[p.zone], vs[p.zone]);
  }

  lemma ZoneSize(z: Zone, v: View)
    requires ZoneOk(z, v)
    ensures z.maxOrder > 0 && |z.pages| == Pow2(z.maxOrder - 1)
  {
  }

  // ----- runs

  datatype Op = GetOp(order: nat, pool: Option<nat>) | PutOp(page: PageRef)

  /** initJiukunBuddy */
  ghost function Initial(maxOrder: nat, noGrow: bool, pool: nat): Buddy
    requires maxOrder > 0
  {
    Buddy(maxOrder, noGrow, [Fresh(maxOrder)], [pool])
  }

  /** One call; a release of a page that is not allocated has no successor, as the program ends there. */
  ghost predicate Step(b: Buddy, op: Op, b': Buddy)
    requires Ready(b)
  {
    match op
    case GetOp(order, pool) => PoolFits(b, pool) && b' == Get(b, order, pool).0
    case PutOp(p) => p.zone < |b.zones| && p.page < |b.zones[p.zone].pages| && Put(b, p) == Some(b')
  }

  ghost predicate Reaches(b: Buddy, ops: seq<Op>, b': Buddy)
    decreases |ops|
  {
    if ops == [] then b == b'
    else Ready(b) && exists m: Buddy :: Step(b, ops[0], m) && Reaches(m, ops[1..], b')
  }

  /** Every state of every run satisfies the invariant. */
  lemma {:induction false} RunKeeps(b: Buddy, vs: seq<View>, ops: seq<Op>, b': Buddy) returns (vs': seq<View>)
    requires SystemOk(b, vs) && AllConserved(b) && Reaches(b, ops, b')
    ensures SystemOk(b', vs') && AllConserved(b') && b'.maxOrder == b.maxOrder
    decreases |ops|
  {
    hide SystemOk, AllConserved, Ready, Get, Put, Blocks;
    if ops == [] {
      vs' := vs;
    } else {
      var m: Buddy :| Step(b, ops[0], m) && Reaches(m, ops[1..], b');
      var vm: seq<View>;
      match ops[0] {
        case GetOp(order, pool) => vm := GetKeeps(b, vs, order, pool);
        case PutOp(p) => vm := PutKeeps(b, vs, p);
      }
      vs' := RunKeeps(m, vm, ops[1..], b');
    }
  }

  lemma InitialOk(maxOrder: nat, noGrow: bool, pool: nat)
    requires maxOrder > 0
    ensures SystemOk(Initial(maxOrder, noGrow, pool), [FreshView(maxOrder)]) && AllConserved(Initial(maxOrder, noGrow, pool))
    ensures Blocks(Initial(maxOrder, noGrow, pool)) == map[]
  {
    hide ZoneOk, Pow2, Conserved;
    FreshOk(maxOrder);
    FreshConserved(maxOrder);
    var b := Initial(maxOrder, noGrow, pool);
    forall q: PageRef ensures q !in Blocks(b) { BlocksOfZone(b, q); }
  }

  /** In every reachable state: pages are conserved, allocated blocks are aligned, inside their pools and disjoint,
      and when nothing is allocated every zone is one free block again. */
  lemma RunsAreSafe(maxOrder: nat, noGrow: bool, pool: nat, ops: seq<Op>, b: Buddy)
    requires maxOrder > 0 && Reaches(Initial(maxOrder, noGrow, pool), ops, b)
    ensures |b.pools| == |b.zones| <= MAX_ZONES && b.maxOrder == maxOrder && AllConserved(b)
    ensures forall p: PageRef :: p in Blocks(b) ==> p.zone < |b.pools| && Blocks(b)[p] < maxOrder && Aligned(p.page, Blocks(b)[p])
    ensures forall p: PageRef, q: PageRef :: p in Blocks(b) && q in Blocks(b) && p != q ==>
              PageToAddr(b, p) + BlockSize(Blocks(b)[p]) <= PageToAddr(b, q) || PageToAddr(b, q) + BlockSize(Blocks(b)[q]) <= PageToAddr(b, p)
    ensures Blocks(b) == map[] ==> forall i :: 0 <= i < |b.zones| ==> OneBlock(b.zones[i])
  {
    hide Blocks, ZoneOk, PoolsApart, Pow2, Aligned, OneBlock, Initial, Reaches;
    InitialOk(maxOrder, noGrow, pool);
    InitialMaxOrder(maxOrder, noGrow, pool);
    var vs := RunKeeps(Initial(maxOrder, noGrow, pool), [FreshView(maxOrder)], ops, b);
    forall p: PageRef, q: PageRef | p in Blocks(b) && q in Blocks(b)
      ensures p.zone < |b.pools| && q.zone < |b.pools| && Blocks(b)[p] < maxOrder && Aligned(p.page, Blocks(b)[p])
      ensures p != q ==> PageToAddr(b, p) + BlockSize(Blocks(b)[p]) <= PageToAddr(b, q) || PageToAddr(b, q) + BlockSize(Blocks(b)[q]) <= PageToAddr(b, p)
    {
      BlocksDisjoint(b, vs, p, q);
    }
    if Blocks(b) == map[] {
      forall i | 0 <= i < |b.zones| ensures OneBlock(b.zones[i]) {
        NothingLiveIn(b, i);
        AllFreeIsOneBlock(b.zones[i], vs[i]);
      }
    }
  }

  lemma InitialMaxOrder(maxOrder: nat, noGrow: bool, pool: nat)
    requires maxOrder > 0
    ensures Initial(maxOrder, noGrow, pool).maxOrder == maxOrder
  {
  }

  lemma NothingLiveIn(b: Buddy, i: nat)
    requires Blocks(b) == map[] && i < |b.zones|
    ensures Live(b.zones[i]) == map[]
  {
    hide Blocks, Live;
    forall p: nat ensures p !in Live(b.zones[i]) { BlocksOfZone(b, PageRef(i, p)); }
  }
}
