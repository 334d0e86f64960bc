/** Whole operations of the memory allocator and its runs (jiukun/slab.c over jiukun/buddy.c). */
module SlabRuns {
  import opened Bits
  import opened BuddyZone
  import opened BuddySystem
  import opened SlabChain
  import opened SlabSizing
  import opened SlabHeap

  ghost predicate Good(h: Heap) {
    exists vs :: HeapOk(h, vs)
  }

  lemma GoodParts(h: Heap) returns (vs: seq<View>)
    requires Good(h)
    ensures HeapOk(h, vs) && Ready(h.buddy) && h.buddy.maxOrder > 0 && |h.caches| > MGMT && !h.caches[MGMT].spec.off
  {
    hide SystemOk, SlabsOk, ListsOk, BlocksOk, TagsOk, MgmtOk, Ready;
    vs :| HeapOk(h, vs);
    SystemReady(h.buddy, vs);
    ReadyOrder(h.buddy);
  }

  lemma ReadyOrder(b: Buddy)
    requires Ready(b)
    ensures b.maxOrder > 0
  {
  }

  // ----- allocation

  predicate Available(cache: Cache) {
    cache.partial != [] || cache.free != []
  }

  /** An object from the first partial slab, or else from the first free one. */
  ghost function TakeFrom(h: Heap, c: nat): (Heap, ObjRef)
    requires Good(h) && c < |h.caches| && Available(h.caches[c])
  {
    TakeReady(h, c);
    Take(h, c)
  }

  lemma TakeReady(h: Heap, c: nat)
    requires Good(h) && c < |h.caches| && Available(h.caches[c])
    ensures var s := Chosen(h.caches[c]); s in h.slabs && h.slabs[s].objs.free < |h.slabs[s].objs.bufctl|
  {
    var vs := GoodParts(h);
    TakeHeap(h, vs, c);
  }

  /** Exactly object o of cache c has come into use. */
  ghost predicate OneMore(h: Heap, h': Heap, c: nat, o: ObjRef) {
    && SameSpecs(h.caches, h'.caches) && !InUse(h.slabs, o) && o.slab in h'.slabs && h'.slabs[o.slab].cache == c
    && (forall x :: InUse(h'.slabs, x) <==> x == o || InUse(h.slabs, x))
    && (forall s :: s in h.slabs ==> s in h'.slabs && h'.slabs[s].cache == h.slabs[s].cache)
  }

  lemma TakeGives(h: Heap, c: nat)
    requires Good(h) && c < |h.caches| && Available(h.caches[c])
    ensures var (h', o) := TakeFrom(h, c);
            Good(h') && OneMore(h, h', c, o) && h'.buddy == h.buddy && (forall x :: IsMgmt(h'.slabs, x) <==> IsMgmt(h.slabs, x))
    ensures TakeFrom(h, c).0.slabs.Keys == h.slabs.Keys
  {
    hide HeapOk, HandedOut, SlabOk;
    var vs := GoodParts(h);
    TakeHeap(h, vs, c);
    var (h', o) := TakeFrom(h, c);
    ChangedUse(h, h', o.slab);
  }

  /** What a change to one slab's objects means for use. */
  lemma ChangedUse(h: Heap, h': Heap, s: PageRef)
    requires ObjsChanged(h, h', s)
    ensures forall x: ObjRef :: InUse(h'.slabs, x) <==> if x.slab == s then x.nr in HandedOut(h'.slabs[s].objs) else InUse(h.slabs, x)
    ensures forall x :: IsMgmt(h'.slabs, x) <==> IsMgmt(h.slabs, x)
    ensures h'.slabs.Keys == h.slabs.Keys && forall t :: t in h.slabs ==> h'.slabs[t].cache == h.slabs[t].cache
  {
    hide HandedOut, SlabOk;
    assert forall t :: t in h.slabs ==> h'.slabs[t].mgmt == h.slabs[t].mgmt;
    forall x ensures IsMgmt(h'.slabs, x) <==> IsMgmt(h.slabs, x) {
      if IsMgmt(h'.slabs, x) {
        var t :| t in h'.slabs && h'.slabs[t].mgmt == Some(x);
        assert t in h.slabs && h.slabs[t].mgmt == Some(x);
      }
      if IsMgmt(h.slabs, x) {
        var t :| t in h.slabs && h.slabs[t].mgmt == Some(x);
        assert t in h'.slabs && h'.slabs[t].mgmt == Some(x);
      }
    }
  }

  // ----- growth

  /** Page blocks that are not slabs: the program holds them. */
  ghost function PagesHeld(h: Heap): set<PageRef> {
    Blocks(h.buddy).Keys - h.slabs.Keys
  }

  ghost predicate BlocksKept(b: Buddy, b': Buddy) {
    b'.maxOrder == b.maxOrder && b.pools <= b'.pools && forall p: PageRef :: p in Blocks(b) ==> p in Blocks(b') && Blocks(b')[p] == Blocks(b)[p]
  }

  lemma GetPage(h: Heap, order: nat, pool: Option<nat>)
    requires Good(h) && h.buddy.maxOrder > 0 && Ready(h.buddy) && PoolFits(h.buddy, pool)
    ensures var (b, r) := Get(h.buddy, order, pool);
            && (!r.Got? ==> b == h.buddy)
            && (r.Got? ==> Good(h.(buddy := b)) && BlocksKept(h.buddy, b) && r.page !in h.slabs && r.page !in Blocks(h.buddy)
                           && r.page in Blocks(b) && Blocks(b)[r.page] == order && PagesHeld(h.(buddy := b)) == PagesHeld(h) + {r.page})
  {
    hide HeapOk, Blocks, Get, Ready, PoolFits;
    var vs := GoodParts(h);
    HeapSystem(h, vs);
    var vs' := GetKeeps(h.buddy, vs, order, pool);
    GetKeepsPools(h.buddy, order, pool);
    var (b, r) := Get(h.buddy, order, pool);
    if r.Got? {
      MoreBlocks(h, vs, b, vs', r.page, order);
      assert HeapOk(h.(buddy := b), vs');
    }
  }

  lemma MakeGives(h: Heap, c: nat, p: PageRef, mgmt: Option<ObjRef>)
    requires Good(h) && c < |h.caches| && p in PagesHeld(h) && Blocks(h.buddy)[p] == h.caches[c].spec.order
    requires mgmt.Some? <==> h.caches[c].spec.off
    requires mgmt.Some? ==> InUse(h.slabs, mgmt.value) && h.slabs[mgmt.value.slab].cache == MGMT && !IsMgmt(h.slabs, mgmt.value)
    ensures var h' := Make(h, c, p, mgmt);
            && Good(h') && h'.buddy == h.buddy && SameSpecs(h.caches, h'.caches) && Available(h'.caches[c])
            && (forall o :: InUse(h'.slabs, o) <==> InUse(h.slabs, o))
            && (forall o :: IsMgmt(h'.slabs, o) <==> IsMgmt(h.slabs, o) || mgmt == Some(o))
            && PagesHeld(h') == PagesHeld(h) - {p} && (forall s :: s in h.slabs ==> s in h'.slabs && h'.slabs[s] == h.slabs[s])
  {
    hide HeapOk, Blocks, InUse, IsMgmt, Tagged, NewSlab;
    var vs := GoodParts(h);
    MakeHeap(h, vs, c, p, mgmt);
    assert HeapOk(Make(h, c, p, mgmt), vs);
  }

  /** _growSlabCache and _allocObj for a cache with its management data on the slab; None when there are no pages. */
  ghost function AllocOn(h: Heap, c: nat, pool: Option<nat>): Option<(Heap, ObjRef)>
    requires Good(h) && c < |h.caches| && !h.caches[c].spec.off && h.buddy.maxOrder > 0 && PoolFits(h.buddy, pool)
  {
    if Available(h.caches[c]) then Some(TakeFrom(h, c))
    else
      ReadyGood(h);
      GetPage(h, h.caches[c].spec.order, pool);
      var (b, r) := Get(h.buddy, h.caches[c].spec.order, pool);
      if !r.Got? then None
      else
        MakeGives(h.(buddy := b), c, r.page, None);
        Some(TakeFrom(Make(h.(buddy := b), c, r.page, None), c))
  }

  lemma ReadyGood(h: Heap)
    requires Good(h)
    ensures Ready(h.buddy) && h.buddy.maxOrder > 0
  {
    var vs := GoodParts(h);
  }

  /** What a successful allocation of object o leaves behind. */
  ghost predicate Allocated(h: Heap, h': Heap, c: nat, o: ObjRef) {
    Good(h') && OneMore(h, h', c, o) && BlocksKept(h.buddy, h'.buddy) && PagesHeld(h') == PagesHeld(h)
  }

  lemma AllocOnGives(h: Heap, c: nat, pool: Option<nat>)
    requires Good(h) && c < |h.caches| && !h.caches[c].spec.off && h.buddy.maxOrder > 0 && PoolFits(h.buddy, pool)
    ensures AllocOn(h, c, pool).Some? ==>
              var (h', o) := AllocOn(h, c, pool).value;
              Allocated(h, h', c, o) && (forall x :: IsMgmt(h'.slabs, x) <==> IsMgmt(h.slabs, x))
  {
    hide Good, Blocks, InUse, IsMgmt, Get, PoolFits, Ready, Make, Take, TakeFrom;
    if Available(h.caches[c]) {
      TakeGives(h, c);
    } else {
      ReadyGood(h);
      GetPage(h, h.caches[c].spec.order, pool);
      var (b, r) := Get(h.buddy, h.caches[c].spec.order, pool);
      if r.Got? {
        MakeGives(h.(buddy := b), c, r.page, None);
        TakeGives(Make(h.(buddy := b), c, r.page, None), c);
      }
    }
  }

  /** An object in use that is not the management data of a slab: the program holds it. */
  ghost predicate UserObj(slabs: map<PageRef, SlabRec>, o: ObjRef) {
    InUse(slabs, o) && !IsMgmt(slabs, o)
  }

  /** Objects the program keeps stay in their caches, caches keep their layouts, pools their places. */
  ghost predicate Steady(h: Heap, h': Heap) {
    && SameSpecs(h.caches, h'.caches) && h.buddy.pools <= h'.buddy.pools && h'.buddy.maxOrder == h.buddy.maxOrder
    && (forall x :: UserObj(h.slabs, x) && UserObj(h'.slabs, x) ==> h'.slabs[x.slab].cache == h.slabs[x.slab].cache)
  }

  /** The program has gained exactly object o of cache c. */
  ghost predicate UserGained(h: Heap, h': Heap, c: nat, o: ObjRef) {
    && Good(h') && Steady(h, h') && !UserObj(h.slabs, o) && o.slab in h'.slabs && h'.slabs[o.slab].cache == c
    && (forall x :: UserObj(h'.slabs, x) <==> x == o || UserObj(h.slabs, x)) && PagesHeld(h') == PagesHeld(h)
  }

  ghost function PutPage(h: Heap, p: PageRef): Heap
    requires Good(h) && p in PagesHeld(h)
  {
    ReadyGood(h);
    PutReady(h, p);
    h.(buddy := Put(h.buddy, p).value)
  }

  lemma PutReady(h: Heap, p: PageRef)
    requires Good(h) && p in Blocks(h.buddy) && Ready(h.buddy)
    ensures p.zone < |h.buddy.zones| && p.page < |h.buddy.zones[p.zone].pages| && Put(h.buddy, p).Some?
  {
    hide HeapOk, Put, Ready;
    var vs := GoodParts(h);
    HeapSystem(h, vs);
    BlocksOfZone(h.buddy, p);
    hide Blocks;
    var vs' := PutKeeps(h.buddy, vs, p);
  }

  /** jf_jiukun_freePage on a block the program holds. */
  lemma PutPageGives(h: Heap, p: PageRef)
    requires Good(h) && p in PagesHeld(h)
    ensures var h' := PutPage(h, p);
            && Good(h') && Steady(h, h') && PagesHeld(h') == PagesHeld(h) - {p} && h'.slabs == h.slabs && h'.caches == h.caches
            && Blocks(h'.buddy) == Blocks(h.buddy) - {p}
  {
    hide HeapOk, Put, Ready, Blocks;
    var vs := GoodParts(h);
    HeapSystem(h, vs);
    ReadyGood(h);
    PutReady(h, p);
    var vs' := PutKeeps(h.buddy, vs, p);
    PutKeepsPools(h.buddy, p);
    FewerBlocks(h, vs, Put(h.buddy, p).value, vs', p);
    assert HeapOk(PutPage(h, p), vs');
  }

  lemma PutKeepsPools(b: Buddy, p: PageRef)
    requires Ready(b) && p.zone < |b.zones| && p.page < |b.zones[p.zone].pages| && Put(b, p).Some?
    ensures Put(b, p).value.pools == b.pools && Put(b, p).value.maxOrder == b.maxOrder
  {
  }

  ghost predicate PoolsFit(h: Heap, c: nat, pool: Option<nat>, pool2: Option<nat>)
    requires c < |h.caches|
  {
    && h.buddy.maxOrder > 0 && Ready(h.buddy) && PoolFits(h.buddy, pool)
    && Get(h.buddy, h.caches[c].spec.order, pool).0.maxOrder > 0
    && PoolFits(Get(h.buddy, h.caches[c].spec.order, pool).0, pool2)
  }

  /** The page block and the management object for a new off-slab slab; on failure the pages go back. */
  ghost function GrowOff(h: Heap, c: nat, pool: Option<nat>, pool2: Option<nat>): (Heap, bool)
    requires Good(h) && c < |h.caches| && h.caches[c].spec.off && PoolsFit(h, c, pool, pool2)
  {
    GetPage(h, h.caches[c].spec.order, pool);
    var (b, r) := Get(h.buddy, h.caches[c].spec.order, pool);
    if !r.Got? then (h, false)
    else
      var h1 := h.(buddy := b);
      ManagementCache(h1);
      AllocOnGives(h1, MGMT, pool2);
      match AllocOn(h1, MGMT, pool2)
      case None => (PutPage(h1, r.page), false)
      case Some(a) => (Make(a.0, c, r.page, Some(a.1)), true)
  }

  lemma ManagementCache(h: Heap)
    requires Good(h)
    ensures |h.caches| > MGMT && !h.caches[MGMT].spec.off
  {
    var vs := GoodParts(h);
  }

  lemma GrowOffGives(h: Heap, c: nat, pool: Option<nat>, pool2: Option<nat>)
    requires Good(h) && c < |h.caches| && h.caches[c].spec.off && PoolsFit(h, c, pool, pool2)
    ensures var (h', ok) := GrowOff(h, c, pool, pool2);
            && Good(h') && Steady(h, h') && (forall x :: UserObj(h'.slabs, x) <==> UserObj(h.slabs, x)) && PagesHeld(h') == PagesHeld(h)
            && (ok ==> Available(h'.caches[c]))
  {
    hide Good, Blocks, HandedOut, IsMgmt, Get, PoolFits, Ready, Make, AllocOn, PutPage;
    GetPage(h, h.caches[c].spec.order, pool);
    var (b, r) := Get(h.buddy, h.caches[c].spec.order, pool);
    if r.Got? {
      var h1 := h.(buddy := b);
      ManagementCache(h1);
      AllocOnGives(h1, MGMT, pool2);
      match AllocOn(h1, MGMT, pool2)
      case None => PutPageGives(h1, r.page);
      case Some(a) =>
        var (h2, o) := a;
        UnusedIsNotMgmt(h1, o);
        MakeGives(h2, c, r.page, Some(o));
    }
  }

  lemma UnusedIsNotMgmt(h: Heap, o: ObjRef)
    requires Good(h) && !InUse(h.slabs, o)
    ensures !IsMgmt(h.slabs, o)
  {
    var vs := GoodParts(h);
  }

  /** _allocObj: the object, or None when the cache cannot grow. */
  ghost function AllocObj(h: Heap, c: nat, pool: Option<nat>, pool2: Option<nat>): (Heap, Option<ObjRef>)
    requires Good(h) && c < |h.caches| && PoolsFit(h, c, pool, pool2)
  {
    if Available(h.caches[c]) then
      var (h', o) := TakeFrom(h, c); (h', Some(o))
    else if !h.caches[c].spec.off then
      match AllocOn(h, c, pool)
      case None => (h, None)
      case Some(a) => (a.0, Some(a.1))
    else
      GrowOffGives(h, c, pool, pool2);
      var (h1, ok) := GrowOff(h, c, pool, pool2);
      if !ok then (h1, None) else var (h', o) := TakeFrom(h1, c); (h', Some(o))
  }

  /** Without an object the program still holds what it held. */
  ghost predicate SameUsers(h: Heap, h': Heap) {
    Good(h') && Steady(h, h') && (forall x :: UserObj(h'.slabs, x) <==> UserObj(h.slabs, x)) && PagesHeld(h') == PagesHeld(h)
  }

  lemma AllocObjGives(h: Heap, c: nat, pool: Option<nat>, pool2: Option<nat>)
    requires Good(h) && c < |h.caches| && PoolsFit(h, c, pool, pool2)
    ensures var (h', r) := AllocObj(h, c, pool, pool2); if r.Some? then UserGained(h, h', c, r.value) else SameUsers(h, h')
  {
    hide Good, Blocks, HandedOut, IsMgmt, Get, PoolFits, Ready, Make, AllocOn, TakeFrom, GrowOff;
    if Available(h.caches[c]) {
      TakeGives(h, c);
      UnusedIsNotMgmt(h, TakeFrom(h, c).1);
    } else if !h.caches[c].spec.off {
      AllocOnGives(h, c, pool);
      if AllocOn(h, c, pool).Some? { UnusedIsNotMgmt(h, AllocOn(h, c, pool).value.1); }
    } else {
      GrowOffGives(h, c, pool, pool2);
      var (h1, ok) := GrowOff(h, c, pool, pool2);
      if ok {
        TakeGives(h1, c);
        UnusedIsNotMgmt(h1, TakeFrom(h1, c).1);
      }
    }
  }

  // ----- release

  /** The address of an object in use leads to its slab and its number, by the page tags and one division. */
  lemma AddressFindsObject(h: Heap, vs: seq<View>, o: ObjRef)
    requires HeapOk(h, vs) && InUse(h.slabs, o)
    ensures o.slab.zone < |h.buddy.pools| && h.slabs[o.slab].cache < |h.caches| && h.buddy.maxOrder > 0
    ensures var spec := SpecOf(h, o.slab);
            var a := ObjAddr(h.buddy, spec, o);
            var page := PageOfAddr(h.buddy, a, 0);
            && spec.objSize > 0 && a >= PageToAddr(h.buddy, o.slab) + Offset(spec)
            && page.Some? && page.value in h.tags && h.tags[page.value] == Tag(h.slabs[o.slab].cache, o.slab)
            && (a - (PageToAddr(h.buddy, o.slab) + Offset(spec))) / spec.objSize == o.nr
  {
    hide HeapOk, InUse, Blocks, PageOfAddr, Offset, LaidOut, BlockSize, ObjAddr, PageToAddr, HasPage;
    ObjectInside(h, vs, o);
    HeapSystem(h, vs);
    SystemPools(h.buddy, vs);
    var spec := SpecOf(h, o.slab);
    ObjSizePositive(spec);
    ObjNumber(h.buddy, spec, o);
    PageInBlock(h.buddy, vs, o.slab, ObjAddr(h.buddy, spec, o));
    TagOfPage(h, vs, o.slab, PageOfAddr(h.buddy, ObjAddr(h.buddy, spec, o), 0).value);
  }

  lemma ObjSizePositive(spec: CacheSpec)
    requires LaidOut(spec)
    ensures spec.objSize > 0
  {
  }

  lemma ObjNumber(b: Buddy, spec: CacheSpec, o: ObjRef)
    requires o.slab.zone < |b.pools| && spec.objSize > 0
    ensures ObjAddr(b, spec, o) >= PageToAddr(b, o.slab) + Offset(spec)
    ensures (ObjAddr(b, spec, o) - (PageToAddr(b, o.slab) + Offset(spec))) / spec.objSize == o.nr
  {
    hide Offset, PageToAddr;
    MulMono(0, o.nr, spec.objSize);
    DivModUnique(o.nr * spec.objSize, spec.objSize, o.nr, 0);
  }

  lemma TagOfPage(h: Heap, vs: seq<View>, s: PageRef, q: PageRef)
    requires HeapOk(h, vs) && s in h.slabs && h.slabs[s].cache < |h.caches| && HasPage(s, SpecOf(h, s).order, q)
    ensures q in h.tags && h.tags[q] == Tag(h.slabs[s].cache, s)
  {
  }

  lemma SystemPools(b: Buddy, vs: seq<View>)
    requires SystemOk(b, vs)
    ensures b.maxOrder > 0 && PoolsApart(b)
  {
  }

  /** An address inside a block belongs to one of the block's pages. */
  lemma PageInBlock(b: Buddy, vs: seq<View>, s: PageRef, a: nat)
    requires SystemOk(b, vs) && s in Blocks(b) && s.zone < |b.pools|
    requires PageToAddr(b, s) <= a < PageToAddr(b, s) + BlockSize(Blocks(b)[s])
    ensures b.maxOrder > 0 && PageOfAddr(b, a, 0).Some? && HasPage(s, Blocks(b)[s], PageOfAddr(b, a, 0).value)
  {
    hide ZoneOk, Blocks, PageOfAddr, Pow2;
    BlockInPool(b, vs, s);
    assert InPool(b, a, s.zone);
    var r := PageOfAddr(b, a, 0).value;
    PoolOfAddr(b, r, s.zone, a);
  }

  lemma PoolOfAddr(b: Buddy, r: PageRef, i: nat, a: nat)
    requires b.maxOrder > 0 && PoolsApart(b) && i < |b.pools| && InPool(b, a, i)
    requires InSystem(b, r) && PageToAddr(b, r) <= a < PageToAddr(b, r) + BuddySystem.PAGE_SIZE
    ensures r.zone == i
  {
    hide Pow2;
  }

  /** jf_jiukun_freeMemory: from the address to the page, its tags, the object number. */
  ghost function FreeMemory(h: Heap, a: nat): Option<Heap>
    requires h.buddy.maxOrder > 0
  {
    var page := PageOfAddr(h.buddy, a, 0);
    if page.None? || page.value !in h.tags then None
    else
      var t := h.tags[page.value];
      if t.cache >= |h.caches| || t.slab !in h.slabs || h.slabs[t.slab].cache >= |h.caches| || t.slab.zone >= |h.buddy.pools| then None
      else
        var spec := h.caches[t.cache].spec;
        var mem := PageToAddr(h.buddy, t.slab) + Offset(spec);
        if spec.objSize == 0 || a < mem || (a - mem) / spec.objSize >= |h.slabs[t.slab].objs.bufctl| then None
        else Some(Give(h, ObjRef(t.slab, (a - mem) / spec.objSize)))
  }

  /** The program has given up exactly object o. */
  ghost predicate UserLost(h: Heap, h': Heap, o: ObjRef) {
    Good(h') && Steady(h, h') && (forall x :: UserObj(h'.slabs, x) <==> x != o && UserObj(h.slabs, x)) && PagesHeld(h') == PagesHeld(h)
  }

  lemma GiveGives(h: Heap, o: ObjRef)
    requires Good(h) && UserObj(h.slabs, o)
    ensures h.slabs[o.slab].cache < |h.caches| && o.nr < |h.slabs[o.slab].objs.bufctl|
    ensures UserLost(h, Give(h, o), o) && Give(h, o).buddy == h.buddy
  {
    hide HeapOk, HandedOut, SlabOk, Blocks, ListsAfterGive;
    var vs := GoodParts(h);
    GiveHeap(h, vs, o);
    var h' := Give(h, o);
    ChangedUse(h, h', o.slab);
    assert HeapOk(h', vs);
  }

  /** Freeing the address of an object the program holds frees that object. */
  lemma FreeMemoryGives(h: Heap, o: ObjRef)
    requires Good(h) && UserObj(h.slabs, o)
    ensures h.buddy.maxOrder > 0 && o.slab.zone < |h.buddy.pools| && h.slabs[o.slab].cache < |h.caches|
    ensures var r := FreeMemory(h, ObjAddr(h.buddy, SpecOf(h, o.slab), o)); r.Some? && UserLost(h, r.value, o)
  {
    hide HeapOk, UserLost, Give, PageOfAddr, HandedOut, IsMgmt, Offset;
    var vs := GoodParts(h);
    AddressFindsObject(h, vs, o);
    GiveGives(h, o);
  }

  // ----- reaping

  /** The object address that _destroySlab turns into a page lies in the first page of the slab. */
  lemma ObjectsStartInFirstPage(h: Heap, vs: seq<View>, s: PageRef)
    requires HeapOk(h, vs) && s in h.slabs
    ensures h.buddy.maxOrder > 0 && h.slabs[s].cache < |h.caches| && s.zone < |h.buddy.pools|
    ensures PageOfAddr(h.buddy, PageToAddr(h.buddy, s) + Offset(SpecOf(h, s)), 0) == Some(s)
  {
    hide SystemOk, ListsOk, TagsOk, MgmtOk, Blocks, ManagementSize, PageOfAddr, Pow2, SlabOk;
    HeapSystem(h, vs);
    SystemPools(h.buddy, vs);
    BlockInPool(h.buddy, vs, s);
    BlockHeadInSystem(h.buddy, vs, s);
    PageRoundTrip(h.buddy, s, Offset(SpecOf(h, s)));
  }

  lemma BlockHeadInSystem(b: Buddy, vs: seq<View>, s: PageRef)
    requires SystemOk(b, vs) && s in Blocks(b)
    ensures InSystem(b, s)
  {
    hide ZoneOk, Pow2, Live, PoolsApart;
    BlocksOfZone(b, s);
    LiveBlocksDisjoint(b.zones[s.zone], vs[s.zone]);
    ZoneSize(b.zones[s.zone], vs[s.zone]);
  }

  /** _destroySlab on the last free slab: its pages go back, and then its management object if it has one. */
  ghost function Destroy(h: Heap, c: nat): Heap
    requires Good(h) && c < |h.caches| && h.caches[c].free != []
  {
    var s := h.caches[c].free[|h.caches[c].free| - 1];
    DropReady(h, c);
    var h1 := Drop(h, c, Put(h.buddy, s).value);
    match h.slabs[s].mgmt
    case None => h1
    case Some(o) => GiveGives(h1, o); Give(h1, o)
  }

  lemma DropReady(h: Heap, c: nat)
    requires Good(h) && c < |h.caches| && h.caches[c].free != []
    ensures var s := h.caches[c].free[|h.caches[c].free| - 1];
            && Ready(h.buddy) && s in h.slabs && s.zone < |h.buddy.zones| && s.page < |h.buddy.zones[s.zone].pages| && Put(h.buddy, s).Some?
            && var h1 := Drop(h, c, Put(h.buddy, s).value);
               && Good(h1) && Steady(h, h1) && PagesHeld(h1) == PagesHeld(h)
               && (h.slabs[s].mgmt.None? ==> forall x :: UserObj(h1.slabs, x) <==> UserObj(h.slabs, x))
               && (h.slabs[s].mgmt.Some? ==> c != MGMT && !UserObj(h.slabs, h.slabs[s].mgmt.value) && h.slabs[h.slabs[s].mgmt.value.slab].cache == MGMT)
               && (h.slabs[s].mgmt.Some? ==> forall x :: UserObj(h1.slabs, x) <==> UserObj(h.slabs, x) || x == h.slabs[s].mgmt.value)
  {
    hide SystemOk, SlabsOk, ListsOk, TagsOk, Put, Ready, Blocks, HandedOut, IsMgmt, CachesOk, MgmtOk;
    var vs := GoodParts(h);
    var list := h.caches[c].free;
    var s := list[|list| - 1];
    assert s in list;
    FreeSlabEmpty(h, vs, c, s);
    PutReady(h, s);
    var vs' := PutKeeps(h.buddy, vs, s);
    PutKeepsPools(h.buddy, s);
    DropHeap(h, vs, c, Put(h.buddy, s).value, vs');
    var h1 := Drop(h, c, Put(h.buddy, s).value);
    assert HeapOk(h1, vs');
    if h.slabs[s].mgmt.Some? { MgmtInUse(h, vs, s); }
  }

  lemma MgmtInUse(h: Heap, vs: seq<View>, s: PageRef)
    requires HeapOk(h, vs) && s in h.slabs && h.slabs[s].mgmt.Some?
    ensures var o := h.slabs[s].mgmt.value; InUse(h.slabs, o) && IsMgmt(h.slabs, o) && h.slabs[o.slab].cache == MGMT
    ensures h.slabs[s].cache != MGMT
  {
  }

  lemma DestroyGives(h: Heap, c: nat)
    requires Good(h) && c < |h.caches| && h.caches[c].free != []
    ensures SameUsers(h, Destroy(h, c)) && |Destroy(h, c).caches[c].free| == |h.caches[c].free| - 1
  {
    hide Good, Blocks, HandedOut, IsMgmt, Put, Ready, ListsAfterGive;
    var s := h.caches[c].free[|h.caches[c].free| - 1];
    DropReady(h, c);
    if h.slabs[s].mgmt.Some? {
      var h1 := Drop(h, c, Put(h.buddy, s).value);
      var o := h.slabs[s].mgmt.value;
      GiveGives(h1, o);
    }
  }

  /** _shrinkSlabCache: destroys free slabs until none is left. */
  ghost function Shrink(h: Heap, c: nat): Heap
    requires Good(h) && c < |h.caches|
    decreases |h.caches[c].free|
  {
    if h.caches[c].free == [] then h
    else
      DestroyGives(h, c);
      Shrink(Destroy(h, c), c)
  }

  lemma {:induction false} ShrinkGives(h: Heap, c: nat)
    requires Good(h) && c < |h.caches|
    ensures SameUsers(h, Shrink(h, c)) && Shrink(h, c).caches[c].free == []
    decreases |h.caches[c].free|
  {
    hide Good, InUse, IsMgmt, PagesHeld, Destroy;
    if h.caches[c].free != [] {
      DestroyGives(h, c);
      ShrinkGives(Destroy(h, c), c);
    }
  }

  // ----- runs

  /** What the program knows of a region it holds: the size it asked for, and (for the proof) the object it is. */
  datatype Holding = Holding(obj: ObjRef, size: int)

  /** The allocator together with the regions the program holds, by address. */
  datatype Machine = Machine(h: Heap, held: map<nat, Holding>)

  datatype Op =
    | MemOp(size: int, pool: Option<nat>, pool2: Option<nat>)
    | FreeOp(addr: nat)
    | ReapOp(cache: nat)
    | ObjOp(cache: nat, pool: Option<nat>, pool2: Option<nat>)
    | PageGetOp(order: nat, pool: Option<nat>)
    | PagePutOp(page: PageRef)
    | CreateOp(request: nat, limit: nat)

  ghost predicate GeneralFirst(caches: seq<Cache>) {
    |caches| >= |GENERAL| && forall i :: 0 <= i < |GENERAL| ==> caches[i].spec.objSize == GENERAL[i]
  }

  /** Object o is at address a and has room for size bytes. */
  ghost predicate HeldAt(h: Heap, a: nat, o: ObjRef, size: int) {
    && UserObj(h.slabs, o) && h.slabs[o.slab].cache < |h.caches| && o.slab.zone < |h.buddy.pools|
    && a == ObjAddr(h.buddy, SpecOf(h, o.slab), o) && size <= SpecOf(h, o.slab).objSize
  }

  /** The program holds exactly the objects in use that manage no slab. */
  ghost predicate MachineOk(m: Machine) {
    && Good(m.h) && GeneralFirst(m.h.caches)
    && (forall a :: a in m.held ==> HeldAt(m.h, a, m.held[a].obj, m.held[a].size))
    && (forall o :: UserObj(m.h.slabs, o) ==> exists a :: a in m.held && m.held[a].obj == o)
  }

  /** _allocObj for the program: on success the object is held from then on. */
  ghost predicate AllocStep(m: Machine, c: nat, size: int, pool: Option<nat>, pool2: Option<nat>, m': Machine)
    requires Good(m.h)
  {
    && c < |m.h.caches| && size <= m.h.caches[c].spec.objSize && PoolsFit(m.h, c, pool, pool2)
    && var (h', r) := AllocObj(m.h, c, pool, pool2);
       match r
       case None => m' == m.(h := h')
       case Some(o) =>
         o.slab.zone < |h'.buddy.pools| && m' == Machine(h', m.held[ObjAddr(h'.buddy, m.h.caches[c].spec, o) := Holding(o, size)])
  }

  ghost predicate Step(m: Machine, op: Op, m': Machine)
    requires Good(m.h)
  {
    match op
    case MemOp(size, pool, pool2) =>
      var c := GeneralFor(size, 0);
      if c == |GENERAL| then m' == m else c < |m.h.caches| && AllocStep(m, c, size, pool, pool2, m')
    case ObjOp(c, pool, pool2) => c < |m.h.caches| && AllocStep(m, c, m.h.caches[c].spec.objSize, pool, pool2, m')
    case FreeOp(a) =>
      a in m.held && m.h.buddy.maxOrder > 0 && FreeMemory(m.h, a).Some? && m' == Machine(FreeMemory(m.h, a).value, m.held - {a})
    case ReapOp(c) => c < |m.h.caches| && m' == m.(h := Shrink(m.h, c))
    case PageGetOp(order, pool) =>
      m.h.buddy.maxOrder > 0 && Ready(m.h.buddy) && PoolFits(m.h.buddy, pool) && m' == m.(h := m.h.(buddy := Get(m.h.buddy, order, pool).0))
    case PagePutOp(p) => p in PagesHeld(m.h) && m' == m.(h := PutPage(m.h, p))
    case CreateOp(request, limit) =>
      && request > 0 && limit >= 8 && CreateCache(request, limit).Created?
      && m' == m.(h := m.h.(caches := m.h.caches + [Cache(CreateCache(request, limit).spec, [], [], [])]))
  }

  ghost predicate Reaches(m: Machine, ops: seq<Op>, m': Machine)
    decreases |ops|
  {
    if ops == [] then m == m' else Good(m.h) && exists n: Machine :: Step(m, ops[0], n) && Reaches(n, ops[1..], m')
  }

  /** What stays held stays where it is. */
  lemma HeldStays(h: Heap, h': Heap, a: nat, o: ObjRef, size: int)
    requires HeldAt(h, a, o, size) && Steady(h, h') && UserObj(h'.slabs, o)
    ensures HeldAt(h', a, o, size)
  {
    hide InUse, IsMgmt, Offset;
    InUseSlab(h'.slabs, o);
  }

  lemma InUseSlab(slabs: map<PageRef, SlabRec>, o: ObjRef)
    requires UserObj(slabs, o)
    ensures o.slab in slabs
  {
  }

  lemma SameUsersKeep(m: Machine, h': Heap)
    requires MachineOk(m) && SameUsers(m.h, h')
    ensures MachineOk(m.(h := h'))
  {
    hide Good, UserObj, HeldAt, PagesHeld;
    forall a | a in m.held ensures HeldAt(h', a, m.held[a].obj, m.held[a].size) {
      HeldIsUser(m.h, a, m.held[a].obj, m.held[a].size);
      HeldStays(m.h, h', a, m.held[a].obj, m.held[a].size);
    }
    assert GeneralFirst(h'.caches);
  }

  lemma HeldIsUser(h: Heap, a: nat, o: ObjRef, size: int)
    requires HeldAt(h, a, o, size)
    ensures UserObj(h.slabs, o)
  {
  }

  lemma AllocStepKeeps(m: Machine, c: nat, size: int, pool: Option<nat>, pool2: Option<nat>, m': Machine)
    requires MachineOk(m) && AllocStep(m, c, size, pool, pool2, m')
    ensures MachineOk(m')
  {
    hide Good, UserObj, HeldAt, PagesHeld, PoolsFit, AllocObj, ObjAddr;
    AllocObjGives(m.h, c, pool, pool2);
    var (h', r) := AllocObj(m.h, c, pool, pool2);
    if r.None? {
      SameUsersKeep(m, h');
    } else {
      var o := r.value;
      var a := ObjAddr(h'.buddy, m.h.caches[c].spec, o);
      assert HeldAt(h', a, o, size) by { NewHeldAt(m.h, h', c, o, size); }
      forall x | x in m.held ensures HeldAt(h', x, m.held[x].obj, m.held[x].size) {
        HeldIsUser(m.h, x, m.held[x].obj, m.held[x].size);
        HeldStays(m.h, h', x, m.held[x].obj, m.held[x].size);
      }
      if a in m.held {
        HeldIsUser(m.h, a, m.held[a].obj, m.held[a].size);
        OneObjectPerAddress(h', a, o, size, m.held[a].obj, m.held[a].size);
      }
      HoldingAdded(m, h', a, o, size);
    }
  }

  /** An address is the start of at most one object in use. */
  lemma OneObjectPerAddress(h: Heap, a: nat, o: ObjRef, size: int, o': ObjRef, size': int)
    requires Good(h) && HeldAt(h, a, o, size) && HeldAt(h, a, o', size')
    ensures o == o'
  {
    hide HeapOk, InUse, IsMgmt, ObjAddr, LaidOut;
    var vs := GoodParts(h);
    ObjectInside(h, vs, o);
    ObjectInside(h, vs, o');
    ObjSizePositive(SpecOf(h, o.slab));
    ObjSizePositive(SpecOf(h, o'.slab));
    if o != o' { ObjectsDisjoint(h, vs, o, o'); }
  }

  lemma HoldingAdded(m: Machine, h': Heap, a: nat, o: ObjRef, size: int)
    requires MachineOk(m) && a !in m.held && Good(h') && SameSpecs(m.h.caches, h'.caches)
    requires HeldAt(h', a, o, size) && forall x :: x in m.held ==> HeldAt(h', x, m.held[x].obj, m.held[x].size)
    requires forall x :: UserObj(h'.slabs, x) <==> x == o || UserObj(m.h.slabs, x)
    ensures MachineOk(Machine(h', m.held[a := Holding(o, size)]))
  {
    hide Good, UserObj, HeldAt;
    var held' := m.held[a := Holding(o, size)];
    forall x | UserObj(h'.slabs, x) ensures exists b :: b in held' && held'[b].obj == x {
      if x == o {
        assert a in held' && held'[a].obj == x;
      } else {
        var b :| b in m.held && m.held[b].obj == x;
        assert b in held' && held'[b].obj == x;
      }
    }
  }

  lemma FreeStepKeeps(m: Machine, a: nat)
    requires MachineOk(m) && a in m.held
    ensures m.h.buddy.maxOrder > 0 && FreeMemory(m.h, a).Some? && MachineOk(Machine(FreeMemory(m.h, a).value, m.held - {a}))
  {
    hide Good, UserObj, FreeMemory, PagesHeld;
    var o := m.held[a].obj;
    FreeMemoryGives(m.h, o);
    var h', held' := FreeMemory(m.h, a).value, m.held - {a};
    forall x | x in held' ensures HeldAt(h', x, held'[x].obj, held'[x].size) {
      HeldStays(m.h, h', x, held'[x].obj, held'[x].size);
    }
    forall x | UserObj(h'.slabs, x) ensures exists b :: b in held' && held'[b].obj == x {
      var b :| b in m.held && m.held[b].obj == x;
      assert b in held' && held'[b].obj == x;
    }
  }

  lemma PageGetKeeps(m: Machine, order: nat, pool: Option<nat>)
    requires MachineOk(m) && m.h.buddy.maxOrder > 0 && Ready(m.h.buddy) && PoolFits(m.h.buddy, pool)
    ensures MachineOk(m.(h := m.h.(buddy := Get(m.h.buddy, order, pool).0)))
  {
    hide Good, UserObj, HeldAt, Get, Ready, PoolFits, Blocks;
    GetPage(m.h, order, pool);
    var h' := m.h.(buddy := Get(m.h.buddy, order, pool).0);
    assert Steady(m.h, h');
    forall a | a in m.held ensures HeldAt(h', a, m.held[a].obj, m.held[a].size) {
      HeldIsUser(m.h, a, m.held[a].obj, m.held[a].size);
      HeldStays(m.h, h', a, m.held[a].obj, m.held[a].size);
    }
  }

  lemma PagePutKeeps(m: Machine, p: PageRef)
    requires MachineOk(m) && p in PagesHeld(m.h)
    ensures MachineOk(m.(h := PutPage(m.h, p)))
  {
    hide Good, UserObj, HeldAt, PutPage, PagesHeld;
    PutPageGives(m.h, p);
    var h' := PutPage(m.h, p);
    forall a | a in m.held ensures HeldAt(h', a, m.held[a].obj, m.held[a].size) {
      HeldIsUser(m.h, a, m.held[a].obj, m.held[a].size);
      HeldStays(m.h, h', a, m.held[a].obj, m.held[a].size);
    }
  }

  /** A new cache has no slab yet. */
  lemma CreateKeeps(m: Machine, spec: CacheSpec)
    requires MachineOk(m) && LaidOut(spec)
    ensures MachineOk(m.(h := m.h.(caches := m.h.caches + [Cache(spec, [], [], [])])))
  {
    hide HeapOk, UserObj, LaidOut, ObjAddr;
    var vs := GoodParts(m.h);
    NewCache(m.h, vs, spec);
    var h' := m.h.(caches := m.h.caches + [Cache(spec, [], [], [])]);
    assert Good(h');
    forall a | a in m.held ensures HeldAt(h', a, m.held[a].obj, m.held[a].size) {
      assert HeldAt(m.h, a, m.held[a].obj, m.held[a].size);
    }
  }

  lemma NewCache(h: Heap, vs: seq<View>, spec: CacheSpec)
    requires HeapOk(h, vs) && LaidOut(spec)
    ensures HeapOk(h.(caches := h.caches + [Cache(spec, [], [], [])]), vs)
  {
    hide SystemOk, SlabOk, LaidOut, Blocks, HasPage, InUse, ListsOf;
    var caches' := h.caches + [Cache(spec, [], [], [])];
    NewCacheLists(h.caches, h.slabs, Cache(spec, [], [], []));
    assert TagsOk(caches', h.slabs, h.tags);
  }

  lemma NewCacheLists(caches: seq<Cache>, slabs: map<PageRef, SlabRec>, cache: Cache)
    requires ListsOk(caches, slabs) && SlabsOk(caches, slabs) && cache.full == cache.partial == cache.free == []
    ensures ListsOk(caches + [cache], slabs)
  {
    hide PlaceOf, SlabOk;
  }

  lemma StepKeeps(m: Machine, op: Op, m': Machine)
    requires MachineOk(m) && Step(m, op, m')
    ensures MachineOk(m')
  {
    hide MachineOk, AllocStep, FreeMemory, Shrink, Get, PutPage, CreateCache, Ready, PoolFits, PagesHeld, LaidOut;
    MachineGood(m);
    match op
    case MemOp(size, pool, pool2) =>
      var c := GeneralFor(size, 0);
      if c < |GENERAL| { AllocStepKeeps(m, c, size, pool, pool2, m'); }
    case ObjOp(c, pool, pool2) => AllocStepKeeps(m, c, m.h.caches[c].spec.objSize, pool, pool2, m');
    case FreeOp(a) => FreeStepKeeps(m, a);
    case ReapOp(c) =>
      ShrinkGives(m.h, c);
      SameUsersKeep(m, Shrink(m.h, c));
    case PageGetOp(order, pool) => PageGetKeeps(m, order, pool);
    case PagePutOp(p) => PagePutKeeps(m, p);
    case CreateOp(request, limit) =>
      CreatedLaidOut(request, limit);
      CreateKeeps(m, CreateCache(request, limit).spec);
  }

  lemma MachineGood(m: Machine)
    requires MachineOk(m)
    ensures Good(m.h) && GeneralFirst(m.h.caches)
  {
  }

  lemma {:induction false} RunKeeps(m: Machine, ops: seq<Op>, m': Machine)
    requires MachineOk(m) && Reaches(m, ops, m')
    ensures MachineOk(m')
    decreases |ops|
  {
    hide MachineOk, Good, Step;
    if ops != [] {
      var n: Machine :| Step(m, ops[0], n) && Reaches(n, ops[1..], m');
      StepKeeps(m, ops[0], n);
      RunKeeps(n, ops[1..], m');
    }
  }

  lemma NewHeldAt(h: Heap, h': Heap, c: nat, o: ObjRef, size: int)
    requires UserGained(h, h', c, o) && c < |h.caches| && size <= h.caches[c].spec.objSize && o.slab.zone < |h'.buddy.pools|
    ensures HeldAt(h', ObjAddr(h'.buddy, h.caches[c].spec, o), o, size)
  {
    hide Good, InUse, IsMgmt, PagesHeld, ObjAddr;
  }

  // ----- what holds in every reachable state

  ghost function GeneralSpec(i: nat): CacheSpec
    requires i < |GENERAL|
  {
    GeneralCreated(i);
    CreateCache(GENERAL[i], LimitBefore(i)).spec
  }

  /** initJiukunBuddy and initJiukunSlab: one zone, the general caches, no slab. */
  ghost function InitialMachine(maxOrder: nat, noGrow: bool, pool: nat): Machine
    requires maxOrder > 0
  {
    Machine(Heap(Initial(maxOrder, noGrow, pool),
                 seq(|GENERAL|, i requires 0 <= i < |GENERAL| => Cache(GeneralSpec(i), [], [], [])), map[], map[]), map[])
  }

  lemma InitialMachineOk(maxOrder: nat, noGrow: bool, pool: nat)
    requires maxOrder > 0
    ensures MachineOk(InitialMachine(maxOrder, noGrow, pool))
  {
    hide SystemOk, CreateCache, LaidOut, Initial, LimitBefore;
    var m := InitialMachine(maxOrder, noGrow, pool);
    InitialOk(maxOrder, noGrow, pool);
    forall i | 0 <= i < |GENERAL|
      ensures LaidOut(m.h.caches[i].spec) && m.h.caches[i].spec.objSize == GENERAL[i] && (m.h.caches[i].spec.off <==> GENERAL[i] >= OFF_SLAB_SIZE)
    {
      GeneralCreated(i);
    }
    assert GENERAL[1] == 64;
    assert HeapOk(m.h, [FreshView(maxOrder)]);
  }

  /** The end of the region at a, which is at least as long as the program asked for. */
  ghost function EndOf(m: Machine, a: nat): int
    requires a in m.held && m.held[a].obj.slab in m.h.slabs && m.h.slabs[m.held[a].obj.slab].cache < |m.h.caches|
  {
    a + SpecOf(m.h, m.held[a].obj.slab).objSize
  }

  /** The region at a is long enough and lies inside the page block of a slab, behind any management data there. */
  ghost predicate Placed(m: Machine, a: nat)
    requires a in m.held
  {
    var s := m.held[a].obj.slab;
    && s in m.h.slabs && s in Blocks(m.h.buddy) && s.zone < |m.h.buddy.pools| && m.h.slabs[s].cache < |m.h.caches|
    && Blocks(m.h.buddy)[s] == SpecOf(m.h, s).order && a + m.held[a].size <= EndOf(m, a)
    && PageToAddr(m.h.buddy, s) + Offset(SpecOf(m.h, s)) <= a && EndOf(m, a) <= PageToAddr(m.h.buddy, s) + BlockSize(SpecOf(m.h, s).order)
  }

  lemma HeldPlaced(m: Machine, a: nat)
    requires MachineOk(m) && a in m.held
    ensures Placed(m, a)
  {
    hide HeapOk, InUse, IsMgmt, Blocks, Offset, LaidOut;
    var vs := GoodParts(m.h);
    ObjectInside(m.h, vs, m.held[a].obj);
  }

  ghost predicate KeepsApart(m: Machine, a: nat, b: nat)
    requires a in m.held && b in m.held
  {
    Placed(m, a) && Placed(m, b) && Disjoint(a, EndOf(m, a), b, EndOf(m, b))
  }

  lemma HeldDisjoint(m: Machine, a: nat, b: nat)
    requires MachineOk(m) && a in m.held && b in m.held && a != b && Placed(m, a) && Placed(m, b)
    ensures KeepsApart(m, a, b)
  {
    hide HeapOk, InUse, IsMgmt, Blocks, Offset;
    var vs := GoodParts(m.h);
    ObjectsDisjoint(m.h, vs, m.held[a].obj, m.held[b].obj);
  }

  /** The management data of slab s, on the slab or off it, avoids the region at a. */
  ghost predicate AvoidsManagement(m: Machine, a: nat, s: PageRef)
    requires a in m.held && s in m.h.slabs
  {
    && Placed(m, a) && s.zone < |m.h.buddy.pools| && m.h.slabs[s].cache < |m.h.caches|
    && match m.h.slabs[s].mgmt
    case None => Disjoint(a, EndOf(m, a), PageToAddr(m.h.buddy, s), PageToAddr(m.h.buddy, s) + Offset(SpecOf(m.h, s)))
    case Some(o) =>
      && o.slab in m.h.slabs && o.slab.zone < |m.h.buddy.pools| && m.h.slabs[o.slab].cache < |m.h.caches|
      && var t := ObjAddr(m.h.buddy, SpecOf(m.h, o.slab), o);
         Disjoint(a, EndOf(m, a), t, t + SpecOf(m.h, o.slab).objSize) && ManagementSize(SpecOf(m.h, s).num) <= SpecOf(m.h, o.slab).objSize
  }

  lemma HeldAvoidsManagement(m: Machine, a: nat, s: PageRef)
    requires MachineOk(m) && a in m.held && Placed(m, a) && s in m.h.slabs
    ensures AvoidsManagement(m, a, s)
  {
    hide HeapOk, InUse, Blocks, Offset, LaidOut;
    var vs := GoodParts(m.h);
    ObjectAvoidsHeaders(m.h, vs, m.held[a].obj, s);
    if m.h.slabs[s].mgmt.Some? {
      var o := m.h.slabs[s].mgmt.value;
      MgmtInUse(m.h, vs, s);
      MgmtFits(m.h, vs, s);
      ObjectsDisjoint(m.h, vs, m.held[a].obj, o);
    }
  }

  lemma MgmtFits(h: Heap, vs: seq<View>, s: PageRef)
    requires HeapOk(h, vs) && s in h.slabs && h.slabs[s].mgmt.Some?
    ensures h.slabs[s].cache < |h.caches| && ManagementSize(SpecOf(h, s).num) <= 64 <= h.caches[MGMT].spec.objSize
  {
    hide ManagementSize;
  }

  ghost predicate AvoidsPages(m: Machine, a: nat, p: PageRef)
    requires a in m.held && p in PagesHeld(m.h)
  {
    && Placed(m, a) && p.zone < |m.h.buddy.pools|
    && Disjoint(a, EndOf(m, a), PageToAddr(m.h.buddy, p), PageToAddr(m.h.buddy, p) + BlockSize(Blocks(m.h.buddy)[p]))
  }

  lemma HeldAvoidsPages(m: Machine, a: nat, p: PageRef)
    requires MachineOk(m) && a in m.held && Placed(m, a) && p in PagesHeld(m.h)
    ensures AvoidsPages(m, a, p)
  {
    hide HeapOk, InUse, IsMgmt, Blocks, Offset;
    var vs := GoodParts(m.h);
    HeapSystem(m.h, vs);
    BlocksDisjoint(m.h.buddy, vs, m.held[a].obj.slab, p);
  }

  /** In every state that any run of allocations, releases, reaps and cache creations can reach: every region the program
      holds is long enough and inside one slab, no two overlap, and none overlaps management data or a page block held. */
  lemma RunsAreSafe(maxOrder: nat, noGrow: bool, pool: nat, ops: seq<Op>, m: Machine)
    requires maxOrder > 0 && Reaches(InitialMachine(maxOrder, noGrow, pool), ops, m)
    ensures forall a :: a in m.held ==> Placed(m, a)
    ensures forall a, b :: a in m.held && b in m.held && a != b ==> KeepsApart(m, a, b)
    ensures forall a, s :: a in m.held && s in m.h.slabs ==> AvoidsManagement(m, a, s)
    ensures forall a, p :: a in m.held && p in PagesHeld(m.h) ==> AvoidsPages(m, a, p)
  {
    hide MachineOk, InitialMachine, Reaches, Placed, KeepsApart, AvoidsManagement, AvoidsPages, PagesHeld, Blocks, Offset;
    InitialMachineOk(maxOrder, noGrow, pool);
    RunKeeps(InitialMachine(maxOrder, noGrow, pool), ops, m);
    forall a | a in m.held ensures Placed(m, a) { HeldPlaced(m, a); }
    forall a, b | a in m.held && b in m.held && a != b ensures KeepsApart(m, a, b) { HeldDisjoint(m, a, b); }
    forall a, s | a in m.held && s in m.h.slabs ensures AvoidsManagement(m, a, s) { HeldAvoidsManagement(m, a, s); }
    forall a, p | a in m.held && p in PagesHeld(m.h) ensures AvoidsPages(m, a, p) { HeldAvoidsPages(m, a, p); }
  }

  /** In every reachable state each slab's free list is acyclic and holds exactly the objects not handed out, and each slab is
      on the full, partial or free list of its cache just as its use count dictates. */
  lemma RunsKeepSlabs(maxOrder: nat, noGrow: bool, pool: nat, ops: seq<Op>, m: Machine)
    requires maxOrder > 0 && Reaches(InitialMachine(maxOrder, noGrow, pool), ops, m)
    ensures ListsOk(m.h.caches, m.h.slabs) && SlabsOk(m.h.caches, m.h.slabs)
    ensures forall s :: s in m.h.slabs ==> |HandedOut(m.h.slabs[s].objs)| == m.h.slabs[s].objs.inUse
  {
    hide InitialMachine, Reaches, SlabOk, HandedOut, ListsOk;
    InitialMachineOk(maxOrder, noGrow, pool);
    RunKeeps(InitialMachine(maxOrder, noGrow, pool), ops, m);
    var vs := GoodParts(m.h);
    forall s | s in m.h.slabs ensures |HandedOut(m.h.slabs[s].objs)| == m.h.slabs[s].objs.inUse {
      InUseCounts(m.h.slabs[s].objs);
    }
  }
}
