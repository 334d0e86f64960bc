/** The slab allocator over the page allocator (jiukun/slab.c): caches, their three slab lists, and slab management objects. */
module SlabHeap {
  import opened Bits
  import opened BuddyZone
  import opened BuddySystem
  import opened SlabChain
  import opened SlabSizing

  /** Object nr of the slab whose pages start at slab. */
  datatype ObjRef = ObjRef(slab: PageRef, nr: nat)

  /** slab_t: its cache, its objects, and the object that holds the slab_t itself when that is off the slab. */
  datatype SlabRec = SlabRec(cache: nat, objs: Slab, mgmt: Option<ObjRef>)

  /** slab_cache_t with sc_jlFull, sc_jlPartial and sc_jlFree. */
  datatype Cache = Cache(spec: CacheSpec, full: seq<PageRef>, partial: seq<PageRef>, free: seq<PageRef>)

  /** What SET_PAGE_CACHE and SET_PAGE_SLAB store in a page. */
  datatype Tag = Tag(cache: nat, slab: PageRef)

  datatype Heap = Heap(buddy: Buddy, caches: seq<Cache>, slabs: map<PageRef, SlabRec>, tags: map<PageRef, Tag>)

  /** The general cache of 64-byte objects, from which off-slab management objects come. */
  const MGMT: nat := 1

  // ----- slab lists

  function WithoutSlab(list: seq<PageRef>, s: PageRef): seq<PageRef> {
    if list == [] then [] else if list[0] == s then list[1..] else [list[0]] + WithoutSlab(list[1..], s)
  }

  /** jf_listhead_del, from whichever list the slab is on. */
  function Unlink(cache: Cache, s: PageRef): Cache {
    cache.(full := WithoutSlab(cache.full, s), partial := WithoutSlab(cache.partial, s), free := WithoutSlab(cache.free, s))
  }

  /** The slab _allocObj allocates from. */
  function Chosen(cache: Cache): PageRef
    requires cache.partial != [] || cache.free != []
  {
    if cache.partial != [] then cache.partial[0] else cache.free[0]
  }

  /** The list moves of _allocObj and _allocOneObjFromTail. */
  function ListsAfterTake(cache: Cache, last: bool): Cache
    requires cache.partial != [] || cache.free != []
  {
    var s := Chosen(cache);
    var c1 := if cache.partial != [] then cache else cache.(free := cache.free[1..], partial := [s]);
    if last then c1.(partial := c1.partial[1..], full := [s] + c1.full) else c1
  }

  /** The list moves of _freeOneObj, by the use count before and after. */
  function ListsAfterGive(cache: Cache, s: PageRef, inUse: int): Cache {
    if inUse - 1 == 0 then var c := Unlink(cache, s); c.(free := [s] + c.free)
    else if inUse == cache.spec.num then var c := Unlink(cache, s); c.(partial := [s] + c.partial)
    else cache
  }

  // ----- steps

  /** An object from a cache that has a partial or free slab. */
  function Take(h: Heap, c: nat): (Heap, ObjRef)
    requires c < |h.caches| && (h.caches[c].partial != [] || h.caches[c].free != [])
    requires var s := Chosen(h.caches[c]); s in h.slabs && h.slabs[s].objs.free < |h.slabs[s].objs.bufctl|
  {
    var s := Chosen(h.caches[c]);
    var rec := h.slabs[s];
    var objs := TakeObject(rec.objs);
    (h.(slabs := h.slabs[s := rec.(objs := objs)],
        caches := h.caches[c := ListsAfterTake(h.caches[c], objs.free == BUFCTL_END)]), ObjRef(s, rec.objs.free))
  }

  /** _freeOneObj */
  function Give(h: Heap, o: ObjRef): Heap
    requires o.slab in h.slabs && h.slabs[o.slab].cache < |h.caches| && o.nr < |h.slabs[o.slab].objs.bufctl|
  {
    var rec := h.slabs[o.slab];
    h.(slabs := h.slabs[o.slab := rec.(objs := GiveObject(rec.objs, o.nr))],
       caches := h.caches[rec.cache := ListsAfterGive(h.caches[rec.cache], o.slab, rec.objs.inUse)])
  }

  /** Page q belongs to the block of 2^order pages at s. */
  predicate HasPage(s: PageRef, order: nat, q: PageRef) {
    q.zone == s.zone && s.page <= q.page < s.page + Pow2(order)
  }

  /** The page tags that _growSlabCache writes to the first n pages from s on. */
  function Tagged(tags: map<PageRef, Tag>, s: PageRef, n: nat, tag: Tag): (r: map<PageRef, Tag>)
    ensures forall q: PageRef :: q in r <==> q in tags || (q.zone == s.zone && s.page <= q.page < s.page + n)
    ensures forall q: PageRef :: q in r ==> r[q] == if q.zone == s.zone && s.page <= q.page < s.page + n then tag else tags[q]
  {
    if n == 0 then tags else Tagged(tags, s, n - 1, tag)[PageRef(s.zone, s.page + n - 1) := tag]
  }

  /** The second half of _growSlabCache: a page block becomes a slab at the end of the free list. */
  function Make(h: Heap, c: nat, p: PageRef, mgmt: Option<ObjRef>): Heap
    requires c < |h.caches|
  {
    var cache := h.caches[c];
    h.(slabs := h.slabs[p := SlabRec(c, NewSlab(cache.spec.num), mgmt)],
       caches := h.caches[c := cache.(free := cache.free + [p])],
       tags := Tagged(h.tags, p, Pow2(cache.spec.order), Tag(c, p)))
  }

  // ----- the invariant

  ghost predicate CachesOk(caches: seq<Cache>) {
    && |caches| > MGMT && !caches[MGMT].spec.off && caches[MGMT].spec.objSize >= 64
    && forall c :: 0 <= c < |caches| ==> LaidOut(caches[c].spec)
  }

  ghost predicate SlabsOk(caches: seq<Cache>, slabs: map<PageRef, SlabRec>) {
    forall s :: s in slabs ==> slabs[s].cache < |caches| && SlabOk(slabs[s].objs) && |slabs[s].objs.bufctl| == caches[slabs[s].cache].spec.num
  }

  datatype Place = OnFree | OnPartial | OnFull

  ghost function PlaceOf(rec: SlabRec): Place {
    if rec.objs.inUse == 0 then OnFree else if rec.objs.inUse == |rec.objs.bufctl| then OnFull else OnPartial
  }

  ghost predicate NoDup(list: seq<PageRef>) {
    forall i, j :: 0 <= i < j < |list| ==> list[i] != list[j]
  }

  /** list holds exactly the slabs of cache c in the given place, once each. */
  ghost predicate ListIs(list: seq<PageRef>, slabs: map<PageRef, SlabRec>, c: nat, place: Place) {
    NoDup(list) && forall s :: s in list <==> s in slabs && slabs[s].cache == c && PlaceOf(slabs[s]) == place
  }

  ghost predicate ListsOf(cache: Cache, slabs: map<PageRef, SlabRec>, c: nat) {
    ListIs(cache.full, slabs, c, OnFull) && ListIs(cache.partial, slabs, c, OnPartial) && ListIs(cache.free, slabs, c, OnFree)
  }

  ghost predicate ListsOk(caches: seq<Cache>, slabs: map<PageRef, SlabRec>) {
    forall c :: 0 <= c < |caches| ==> ListsOf(caches[c], slabs, c)
  }

  // ----- lists keep in step with the slabs

  lemma {:induction false} WithoutRefs(list: seq<PageRef>, s: PageRef)
    requires NoDup(list)
    ensures NoDup(WithoutSlab(list, s)) && forall t :: t in WithoutSlab(list, s) <==> t in list && t != s
  {
    if list != [] {
      var rest := list[1..];
      assert list == [list[0]] + rest;
      assert list[0] !in rest;
      if list[0] != s {
        WithoutRefs(rest, s);
        PrependRef(WithoutSlab(rest, s), list[0]);
      }
    }
  }

  lemma PrependRef(list: seq<PageRef>, s: PageRef)
    requires NoDup(list) && s !in list
    ensures NoDup([s] + list) && forall t :: t in [s] + list <==> t == s || t in list
  {
  }

  lemma OneRef(s: PageRef)
    ensures NoDup([s]) && NoDup([s][1..]) && [s][1..] == []
  {
  }

  lemma AppendRef(list: seq<PageRef>, s: PageRef)
    requires NoDup(list) && s !in list
    ensures NoDup(list + [s]) && forall t :: t in list + [s] <==> t == s || t in list
  {
  }

  lemma TailRefs(list: seq<PageRef>)
    requires NoDup(list) && list != []
    ensures NoDup(list[1..]) && forall t :: t in list[1..] <==> t in list && t != list[0]
  {
    assert list == [list[0]] + list[1..];
  }

  lemma NotListed(list: seq<PageRef>, s: PageRef)
    requires s !in list
    ensures WithoutSlab(list, s) == list
  {
    if list != [] {
      assert list[0] in list;
      NotListed(list[1..], s);
      assert list == [list[0]] + list[1..];
    }
  }

  /** A list of cache c after slab s of that cache changed to rec. */
  lemma ListFollows(before: seq<PageRef>, after: seq<PageRef>, slabs: map<PageRef, SlabRec>, c: nat, place: Place, s: PageRef, rec: SlabRec)
    requires ListIs(before, slabs, c, place) && rec.cache == c && (s in slabs ==> slabs[s].cache == c)
    requires NoDup(after) && forall t :: t != s ==> (t in after <==> t in before)
    requires s in after <==> PlaceOf(rec) == place
    ensures ListIs(after, slabs[s := rec], c, place)
  {
    hide NoDup, PlaceOf;
  }

  /** The lists of the caches that slab s does not belong to. */
  lemma OtherLists(cache: Cache, slabs: map<PageRef, SlabRec>, c: nat, s: PageRef, rec: SlabRec)
    requires ListsOf(cache, slabs, c) && rec.cache != c && (s in slabs ==> slabs[s].cache != c)
    ensures ListsOf(cache, slabs[s := rec], c)
  {
    hide NoDup, PlaceOf;
  }

  lemma OneCacheChanged(caches: seq<Cache>, slabs: map<PageRef, SlabRec>, c: nat, cache: Cache, s: PageRef, rec: SlabRec)
    requires ListsOk(caches, slabs) && c < |caches| && rec.cache == c && (s in slabs ==> slabs[s].cache == c)
    requires ListsOf(cache, slabs[s := rec], c)
    ensures ListsOk(caches[c := cache], slabs[s := rec])
  {
    hide ListsOf;
    forall d | 0 <= d < |caches| && d != c ensures ListsOf(caches[d], slabs[s := rec], d) {
      OtherLists(caches[d], slabs, d, s, rec);
    }
  }

  /** _allocObj and _allocOneObjFromTail put the slab on the list its new use count calls for. */
  lemma TakeLists(cache: Cache, slabs: map<PageRef, SlabRec>, c: nat)
    requires ListsOf(cache, slabs, c) && (cache.partial != [] || cache.free != [])
    ensures var s := Chosen(cache); s in slabs && slabs[s].cache == c
    ensures var s := Chosen(cache);
            SlabOk(slabs[s].objs) ==>
              && slabs[s].objs.free < |slabs[s].objs.bufctl|
              && var rec := slabs[s].(objs := TakeObject(slabs[s].objs));
                 ListsOf(ListsAfterTake(cache, rec.objs.free == BUFCTL_END), slabs[s := rec], c)
  {
    hide NoDup, SlabOk;
    var s := Chosen(cache);
    assert cache.partial != [] ==> cache.partial[0] in cache.partial;
    assert cache.free != [] ==> cache.free[0] in cache.free;
    if SlabOk(slabs[s].objs) {
      FreeIff(slabs[s].objs);
      var rec := slabs[s].(objs := TakeObject(slabs[s].objs));
      SlabChain.TakeKeeps(slabs[s].objs);
      FreeIff(rec.objs);
      TakeListsFollow(cache, slabs, c, rec);
    }
  }

  lemma TakeListsFollow(cache: Cache, slabs: map<PageRef, SlabRec>, c: nat, rec: SlabRec)
    requires ListsOf(cache, slabs, c) && (cache.partial != [] || cache.free != [])
    requires var s := Chosen(cache); s in slabs && slabs[s].cache == c == rec.cache && PlaceOf(slabs[s]) != OnFull && PlaceOf(rec) != OnFree
    ensures ListsOf(ListsAfterTake(cache, PlaceOf(rec) == OnFull), slabs[Chosen(cache) := rec], c)
  {
    hide NoDup, PlaceOf;
    var s := Chosen(cache);
    var after := ListsAfterTake(cache, PlaceOf(rec) == OnFull);
    PrependRef(cache.full, s);
    if cache.partial != [] {
      TailRefs(cache.partial);
      assert cache.partial[0] in cache.partial;
    } else {
      TailRefs(cache.free);
      assert cache.free[0] in cache.free;
    }
    OneRef(s);
    ListFollows(cache.full, after.full, slabs, c, OnFull, s, rec);
    ListFollows(cache.partial, after.partial, slabs, c, OnPartial, s, rec);
    ListFollows(cache.free, after.free, slabs, c, OnFree, s, rec);
  }

  /** _freeOneObj puts the slab on the list its new use count calls for. */
  lemma GiveLists(cache: Cache, slabs: map<PageRef, SlabRec>, c: nat, s: PageRef, rec: SlabRec)
    requires ListsOf(cache, slabs, c) && s in slabs && slabs[s].cache == c == rec.cache
    requires |rec.objs.bufctl| == |slabs[s].objs.bufctl| == cache.spec.num > 0
    requires 0 < slabs[s].objs.inUse <= cache.spec.num && rec.objs.inUse == slabs[s].objs.inUse - 1
    ensures ListsOf(ListsAfterGive(cache, s, slabs[s].objs.inUse), slabs[s := rec], c)
  {
    hide NoDup;
    var after := ListsAfterGive(cache, s, slabs[s].objs.inUse);
    WithoutRefs(cache.full, s);
    WithoutRefs(cache.partial, s);
    WithoutRefs(cache.free, s);
    PrependRef(WithoutSlab(cache.free, s), s);
    PrependRef(WithoutSlab(cache.partial, s), s);
    ListFollows(cache.full, after.full, slabs, c, OnFull, s, rec);
    ListFollows(cache.partial, after.partial, slabs, c, OnPartial, s, rec);
    ListFollows(cache.free, after.free, slabs, c, OnFree, s, rec);
  }

  /** A new slab joins the end of the free list. */
  lemma MakeLists(cache: Cache, slabs: map<PageRef, SlabRec>, c: nat, s: PageRef, rec: SlabRec)
    requires ListsOf(cache, slabs, c) && s !in slabs && rec.cache == c && PlaceOf(rec) == OnFree
    ensures ListsOf(cache.(free := cache.free + [s]), slabs[s := rec], c)
  {
    hide NoDup, PlaceOf;
    AppendRef(cache.free, s);
    ListFollows(cache.full, cache.full, slabs, c, OnFull, s, rec);
    ListFollows(cache.partial, cache.partial, slabs, c, OnPartial, s, rec);
    ListFollows(cache.free, cache.free + [s], slabs, c, OnFree, s, rec);
  }

  /** The last free slab leaves its list and the slabs. */
  lemma DropLists(caches: seq<Cache>, slabs: map<PageRef, SlabRec>, c: nat)
    requires ListsOk(caches, slabs) && c < |caches| && caches[c].free != []
    ensures var list := caches[c].free;
            ListsOk(caches[c := caches[c].(free := list[..|list| - 1])], slabs - {list[|list| - 1]})
  {
    hide PlaceOf;
    var list := caches[c].free;
    var s, rest := list[|list| - 1], list[..|list| - 1];
    assert list == rest + [s];
    assert s in list && s !in rest;
    forall d | 0 <= d < |caches| ensures ListIs(caches[d].full, slabs - {s}, d, OnFull) && ListIs(caches[d].partial, slabs - {s}, d, OnPartial) {
      assert ListsOf(caches[d], slabs, d);
    }
    forall d | 0 <= d < |caches| && d != c ensures ListIs(caches[d].free, slabs - {s}, d, OnFree) {
      assert ListsOf(caches[d], slabs, d);
    }
    assert ListIs(rest, slabs - {s}, c, OnFree);
  }

  // ----- the whole invariant

  /** Every slab is an allocated page block of its cache's order. */
  ghost predicate BlocksOk(b: Buddy, caches: seq<Cache>, slabs: map<PageRef, SlabRec>) {
    forall s :: s in slabs ==> s in Blocks(b) && slabs[s].cache < |caches| && Blocks(b)[s] == caches[slabs[s].cache].spec.order
  }

  /** Every page of a slab leads back to it. */
  ghost predicate TagsOk(caches: seq<Cache>, slabs: map<PageRef, SlabRec>, tags: map<PageRef, Tag>) {
    forall s, q: PageRef :: s in slabs && slabs[s].cache < |caches| && HasPage(s, caches[slabs[s].cache].spec.order, q) ==>
      q in tags && tags[q] == Tag(slabs[s].cache, s)
  }

  ghost predicate InUse(slabs: map<PageRef, SlabRec>, o: ObjRef) {
    o.slab in slabs && o.nr in HandedOut(slabs[o.slab].objs)
  }

  /** Off-slab management data lives in an object of the management cache that nothing else uses. */
  ghost predicate MgmtOk(caches: seq<Cache>, slabs: map<PageRef, SlabRec>) {
    && (forall s :: s in slabs && slabs[s].cache < |caches| ==> (slabs[s].mgmt.Some? <==> caches[slabs[s].cache].spec.off))
    && (forall s :: s in slabs && slabs[s].mgmt.Some? ==>
         InUse(slabs, slabs[s].mgmt.value) && slabs[slabs[s].mgmt.value.slab].cache == MGMT)
    && (forall s, t :: s in slabs && t in slabs && s != t && slabs[s].mgmt.Some? ==> slabs[s].mgmt != slabs[t].mgmt)
  }

  ghost predicate HeapOk(h: Heap, vs: seq<View>) {
    && SystemOk(h.buddy, vs) && CachesOk(h.caches) && SlabsOk(h.caches, h.slabs) && ListsOk(h.caches, h.slabs)
    && BlocksOk(h.buddy, h.caches, h.slabs) && TagsOk(h.caches, h.slabs, h.tags) && MgmtOk(h.caches, h.slabs)
  }

  ghost predicate IsMgmt(slabs: map<PageRef, SlabRec>, o: ObjRef) {
    exists s :: s in slabs && slabs[s].mgmt == Some(o)
  }

  // ----- steps keep it

  /** One slab's objects changed, and the lists of its cache with them. */
  ghost predicate ObjsChanged(h: Heap, h': Heap, s: PageRef) {
    && s in h.slabs && h.slabs[s].cache < |h.caches| && s in h'.slabs
    && h'.buddy == h.buddy && h'.tags == h.tags && h'.slabs == h.slabs[s := h.slabs[s].(objs := h'.slabs[s].objs)]
    && SameSpecs(h.caches, h'.caches)
    && SlabOk(h'.slabs[s].objs) && |h'.slabs[s].objs.bufctl| == |h.slabs[s].objs.bufctl|
  }

  lemma ObjsChangedKeeps(h: Heap, vs: seq<View>, h': Heap, s: PageRef)
    requires HeapOk(h, vs) && ObjsChanged(h, h', s) && ListsOk(h'.caches, h'.slabs)
    requires forall t :: t in h.slabs && h.slabs[t].mgmt.Some? ==> InUse(h'.slabs, h.slabs[t].mgmt.value)
    ensures HeapOk(h', vs)
  {
    hide ListsOk, SystemOk, SlabOk, LaidOut, HandedOut, TagsOk, BlocksOk, MgmtOk;
    assert SameOwners(h.slabs, h'.slabs);
    SameOwnersBlocks(h.buddy, h.caches, h.slabs, h'.caches, h'.slabs);
    SameOwnersTags(h.caches, h.slabs, h'.caches, h'.slabs, h.tags);
    SameOwnersMgmt(h.caches, h.slabs, h'.caches, h'.slabs);
  }

  /** The same slabs, with the same caches and management objects. */
  ghost predicate SameOwners(slabs: map<PageRef, SlabRec>, slabs': map<PageRef, SlabRec>) {
    slabs'.Keys == slabs.Keys && forall s :: s in slabs ==> slabs'[s].cache == slabs[s].cache && slabs'[s].mgmt == slabs[s].mgmt
  }

  ghost predicate SameSpecs(caches: seq<Cache>, caches': seq<Cache>) {
    |caches'| == |caches| && forall c :: 0 <= c < |caches| ==> caches'[c].spec == caches[c].spec
  }

  lemma SameOwnersBlocks(b: Buddy, caches: seq<Cache>, slabs: map<PageRef, SlabRec>, caches': seq<Cache>, slabs': map<PageRef, SlabRec>)
    requires BlocksOk(b, caches, slabs) && SameOwners(slabs, slabs') && SameSpecs(caches, caches')
    ensures BlocksOk(b, caches', slabs')
  {
    hide Blocks;
  }

  lemma SameOwnersTags(caches: seq<Cache>, slabs: map<PageRef, SlabRec>, caches': seq<Cache>, slabs': map<PageRef, SlabRec>, tags: map<PageRef, Tag>)
    requires TagsOk(caches, slabs, tags) && SameOwners(slabs, slabs') && SameSpecs(caches, caches')
    ensures TagsOk(caches', slabs', tags)
  {
    hide HasPage;
  }

  lemma SameOwnersMgmt(caches: seq<Cache>, slabs: map<PageRef, SlabRec>, caches': seq<Cache>, slabs': map<PageRef, SlabRec>)
    requires MgmtOk(caches, slabs) && SameOwners(slabs, slabs') && SameSpecs(caches, caches')
    requires forall t :: t in slabs && slabs[t].mgmt.Some? ==> InUse(slabs', slabs[t].mgmt.value)
    ensures MgmtOk(caches', slabs')
  {
    hide HandedOut;
  }

  lemma TakeHeap(h: Heap, vs: seq<View>, c: nat)
    requires HeapOk(h, vs) && c < |h.caches| && (h.caches[c].partial != [] || h.caches[c].free != [])
    ensures var s := Chosen(h.caches[c]); s in h.slabs && h.slabs[s].cache == c && h.slabs[s].objs.free < |h.slabs[s].objs.bufctl|
    ensures var (h', o) := Take(h, c);
            && HeapOk(h', vs) && h'.buddy == h.buddy && o.slab in h.slabs && h.slabs[o.slab].cache == c && !InUse(h.slabs, o)
            && ObjsChanged(h, h', o.slab) && HandedOut(h'.slabs[o.slab].objs) == HandedOut(h.slabs[o.slab].objs) + {o.nr}
  {
    hide SystemOk, SlabOk, LaidOut, HandedOut, BlocksOk, TagsOk, ListsOf, ListsAfterTake;
    var s := Chosen(h.caches[c]);
    TakeLists(h.caches[c], h.slabs, c);
    var (h', o) := Take(h, c);
    SlabChain.TakeKeeps(h.slabs[s].objs);
    ListsAfterTakeSpec(h.caches[c], TakeObject(h.slabs[s].objs).free == BUFCTL_END);
    OneCacheChanged(h.caches, h.slabs, c, h'.caches[c], s, h'.slabs[s]);
    ObjsChangedKeeps(h, vs, h', s);
  }

  lemma ListsAfterTakeSpec(cache: Cache, last: bool)
    requires cache.partial != [] || cache.free != []
    ensures ListsAfterTake(cache, last).spec == cache.spec
  {
  }

  /** Giving back an object in use that manages no slab. */
  lemma GiveHeap(h: Heap, vs: seq<View>, o: ObjRef)
    requires HeapOk(h, vs) && InUse(h.slabs, o) && !IsMgmt(h.slabs, o)
    ensures h.slabs[o.slab].cache < |h.caches| && o.nr < |h.slabs[o.slab].objs.bufctl|
    ensures var h' := Give(h, o);
            && HeapOk(h', vs) && h'.buddy == h.buddy
            && ObjsChanged(h, h', o.slab) && HandedOut(h'.slabs[o.slab].objs) == HandedOut(h.slabs[o.slab].objs) - {o.nr}
  {
    hide SystemOk, SlabOk, LaidOut, BlocksOk, TagsOk, ListsOf, ListsAfterGive, FreeObjects;
    var s := o.slab;
    var rec := h.slabs[s];
    var c := rec.cache;
    GiveKeeps(rec.objs, o.nr);
    FreeIff(rec.objs);
    var h' := Give(h, o);
    GiveLists(h.caches[c], h.slabs, c, s, h'.slabs[s]);
    ListsAfterGiveSpec(h.caches[c], s, rec.objs.inUse);
    OneCacheChanged(h.caches, h.slabs, c, h'.caches[c], s, h'.slabs[s]);
    assert forall t :: t in h.slabs ==> h.slabs[t].mgmt != Some(o);
    ObjsChangedKeeps(h, vs, h', s);
  }

  lemma ListsAfterGiveSpec(cache: Cache, s: PageRef, inUse: int)
    ensures ListsAfterGive(cache, s, inUse).spec == cache.spec
  {
  }

  // ----- page blocks come and go

  lemma MoreBlocks(h: Heap, vs: seq<View>, b: Buddy, vs': seq<View>, p: PageRef, order: nat)
    requires HeapOk(h, vs) && SystemOk(b, vs') && Gained(h.buddy, b, p, order)
    ensures HeapOk(h.(buddy := b), vs') && p !in h.slabs && p in Blocks(b) && Blocks(b)[p] == order
  {
    hide SystemOk, CachesOk, SlabsOk, ListsOk, TagsOk, MgmtOk, Blocks;
  }

  lemma FewerBlocks(h: Heap, vs: seq<View>, b: Buddy, vs': seq<View>, p: PageRef)
    requires HeapOk(h, vs) && SystemOk(b, vs') && Blocks(b) == Blocks(h.buddy) - {p} && p !in h.slabs
    ensures HeapOk(h.(buddy := b), vs')
  {
    hide SystemOk, CachesOk, SlabsOk, ListsOk, TagsOk, MgmtOk, Blocks;
  }

  /** Different blocks share no page. */
  lemma NoSharedPage(b: Buddy, vs: seq<View>, p: PageRef, q: PageRef, x: PageRef)
    requires SystemOk(b, vs) && p in Blocks(b) && q in Blocks(b) && HasPage(p, Blocks(b)[p], x) && HasPage(q, Blocks(b)[q], x)
    ensures p == q
  {
    hide ZoneOk, Live, Blocks, Pow2, PoolsApart;
    BlocksOfZone(b, p);
    BlocksOfZone(b, q);
    LiveBlocksDisjoint(b.zones[p.zone], vs[p.zone]);
    var live := Live(b.zones[p.zone]);
    assert p.page != q.page ==> Apart(p.page, live[p.page], q.page, live[q.page]);
  }

  /** A block the program holds becomes a slab. */
  lemma MakeHeap(h: Heap, vs: seq<View>, c: nat, p: PageRef, mgmt: Option<ObjRef>)
    requires HeapOk(h, vs) && c < |h.caches| && p !in h.slabs && p in Blocks(h.buddy) && Blocks(h.buddy)[p] == h.caches[c].spec.order
    requires mgmt.Some? <==> h.caches[c].spec.off
    requires mgmt.Some? ==> InUse(h.slabs, mgmt.value) && h.slabs[mgmt.value.slab].cache == MGMT && !IsMgmt(h.slabs, mgmt.value)
    ensures var h' := Make(h, c, p, mgmt);
            && HeapOk(h', vs) && h'.buddy == h.buddy && SameSpecs(h.caches, h'.caches) && h'.caches[c].free != []
            && (forall o :: InUse(h'.slabs, o) <==> InUse(h.slabs, o))
            && (forall o :: IsMgmt(h'.slabs, o) <==> IsMgmt(h.slabs, o) || mgmt == Some(o))
  {
    hide SystemOk, LaidOut, ListsOf, SlabOk, HandedOut, TagsOk, Blocks, NewSlab, Tagged, Pow2;
    var h' := Make(h, c, p, mgmt);
    var rec := h'.slabs[p];
    LaidOutNum(h.caches[c].spec);
    NewSlabOk(h.caches[c].spec.num);
    NewSlabSize(h.caches[c].spec.num);
    assert ListsOf(h.caches[c], h.slabs, c);
    MakeLists(h.caches[c], h.slabs, c, p, rec);
    OneCacheChanged(h.caches, h.slabs, c, h'.caches[c], p, rec);
    MakeTags(h, vs, c, p, rec, h'.caches);
    MakeInUse(h.slabs, p, rec);
    MakeMgmt(h.caches, h.slabs, h'.caches, p, rec);
  }

  lemma LaidOutNum(c: CacheSpec)
    requires LaidOut(c)
    ensures 0 < c.num < BUFCTL_END
  {
  }

  lemma NewSlabSize(num: nat)
    ensures |NewSlab(num).bufctl| == num && NewSlab(num).inUse == 0
  {
  }

  lemma MakeTags(h: Heap, vs: seq<View>, c: nat, p: PageRef, rec: SlabRec, caches: seq<Cache>)
    requires HeapOk(h, vs) && c < |h.caches| && p !in h.slabs && p in Blocks(h.buddy) && Blocks(h.buddy)[p] == h.caches[c].spec.order
    requires rec.cache == c && SameSpecs(h.caches, caches)
    ensures TagsOk(caches, h.slabs[p := rec], Tagged(h.tags, p, Pow2(h.caches[c].spec.order), Tag(c, p)))
  {
    hide SystemOk, CachesOk, SlabsOk, ListsOk, MgmtOk, Blocks, Pow2, Tagged;
    var tags := Tagged(h.tags, p, Pow2(h.caches[c].spec.order), Tag(c, p));
    var slabs' := h.slabs[p := rec];
    forall s, q: PageRef | s in slabs' && slabs'[s].cache < |caches| && HasPage(s, caches[slabs'[s].cache].spec.order, q)
      ensures q in tags && tags[q] == Tag(slabs'[s].cache, s)
    {
      if s != p && HasPage(p, h.caches[c].spec.order, q) { NoSharedPage(h.buddy, vs, s, p, q); }
    }
  }

  lemma MakeInUse(slabs: map<PageRef, SlabRec>, p: PageRef, rec: SlabRec)
    requires p !in slabs && HandedOut(rec.objs) == {}
    ensures forall o :: InUse(slabs[p := rec], o) <==> InUse(slabs, o)
    ensures forall o :: IsMgmt(slabs[p := rec], o) <==> IsMgmt(slabs, o) || rec.mgmt == Some(o)
  {
    hide HandedOut;
    var slabs' := slabs[p := rec];
    forall o ensures IsMgmt(slabs', o) <==> IsMgmt(slabs, o) || rec.mgmt == Some(o) {
      assert slabs'[p].mgmt == rec.mgmt;
      if IsMgmt(slabs, o) {
        var s :| s in slabs && slabs[s].mgmt == Some(o);
        assert s in slabs' && slabs'[s].mgmt == Some(o);
      }
    }
  }

  lemma MakeMgmt(caches: seq<Cache>, slabs: map<PageRef, SlabRec>, caches': seq<Cache>, p: PageRef, rec: SlabRec)
    requires MgmtOk(caches, slabs) && SameSpecs(caches, caches') && p !in slabs && rec.cache < |caches| && HandedOut(rec.objs) == {}
    requires rec.mgmt.Some? <==> caches[rec.cache].spec.off
    requires rec.mgmt.Some? ==> InUse(slabs, rec.mgmt.value) && slabs[rec.mgmt.value.slab].cache == MGMT && !IsMgmt(slabs, rec.mgmt.value)
    ensures MgmtOk(caches', slabs[p := rec])
  {
    hide HandedOut;
    var slabs' := slabs[p := rec];
    forall s | s in slabs' && slabs'[s].mgmt.Some?
      ensures InUse(slabs', slabs'[s].mgmt.value) && slabs'[slabs'[s].mgmt.value.slab].cache == MGMT
    {
      assert InUse(slabs, slabs'[s].mgmt.value);
    }
    forall s, t | s in slabs' && t in slabs' && s != t && slabs'[s].mgmt.Some? ensures slabs'[s].mgmt != slabs'[t].mgmt {
    }
  }

  /** A free slab holds no object in use. */
  lemma FreeSlabEmpty(h: Heap, vs: seq<View>, c: nat, s: PageRef)
    requires HeapOk(h, vs) && c < |h.caches| && s in h.caches[c].free
    ensures s in h.slabs && h.slabs[s].cache == c && HandedOut(h.slabs[s].objs) == {}
  {
    hide SystemOk, SlabOk, LaidOut, HandedOut, BlocksOk, TagsOk;
    assert ListsOf(h.caches[c], h.slabs, c);
    InUseCounts(h.slabs[s].objs);
  }

  /** The first half of _destroySlab: the pages of the last free slab go back. */
  function Drop(h: Heap, c: nat, b: Buddy): Heap
    requires c < |h.caches| && h.caches[c].free != []
  {
    var list := h.caches[c].free;
    h.(buddy := b, slabs := h.slabs - {list[|list| - 1]}, caches := h.caches[c := h.caches[c].(free := list[..|list| - 1])])
  }

  lemma DropHeap(h: Heap, vs: seq<View>, c: nat, b: Buddy, vs': seq<View>)
    requires HeapOk(h, vs) && c < |h.caches| && h.caches[c].free != []
    requires SystemOk(b, vs') && Blocks(b) == Blocks(h.buddy) - {h.caches[c].free[|h.caches[c].free| - 1]}
    ensures var list := h.caches[c].free;
            var s := list[|list| - 1];
            && s in h.slabs && HeapOk(Drop(h, c, b), vs') && SameSpecs(h.caches, Drop(h, c, b).caches)
            && (forall o :: InUse(h.slabs - {s}, o) <==> InUse(h.slabs, o))
            && (forall o :: IsMgmt(h.slabs - {s}, o) <==> IsMgmt(h.slabs, o) && h.slabs[s].mgmt != Some(o))
  {
    hide SystemOk, SlabOk, LaidOut, HandedOut, ListsOk, Blocks, HasPage, InUse, IsMgmt, MgmtOk;
    var list := h.caches[c].free;
    var s := list[|list| - 1];
    assert s in list;
    FreeSlabEmpty(h, vs, c, s);
    DropLists(h.caches, h.slabs, c);
    DropInUse(h.caches, h.slabs, s);
    DropMgmt(h.caches, h.slabs, Drop(h, c, b).caches, s);
  }

  lemma DropInUse(caches: seq<Cache>, slabs: map<PageRef, SlabRec>, s: PageRef)
    requires MgmtOk(caches, slabs) && s in slabs && HandedOut(slabs[s].objs) == {}
    ensures forall o :: InUse(slabs - {s}, o) <==> InUse(slabs, o)
    ensures forall o :: IsMgmt(slabs - {s}, o) <==> IsMgmt(slabs, o) && slabs[s].mgmt != Some(o)
  {
    hide HandedOut;
    var slabs' := slabs - {s};
    forall o ensures IsMgmt(slabs', o) <==> IsMgmt(slabs, o) && slabs[s].mgmt != Some(o) {
      if IsMgmt(slabs', o) {
        var t :| t in slabs' && slabs'[t].mgmt == Some(o);
        assert t in slabs && slabs[t].mgmt == Some(o);
      }
      if IsMgmt(slabs, o) && slabs[s].mgmt != Some(o) {
        var t :| t in slabs && slabs[t].mgmt == Some(o);
        assert t in slabs';
      }
    }
  }

  lemma DropMgmt(caches: seq<Cache>, slabs: map<PageRef, SlabRec>, caches': seq<Cache>, s: PageRef)
    requires MgmtOk(caches, slabs) && SameSpecs(caches, caches') && s in slabs && HandedOut(slabs[s].objs) == {}
    ensures MgmtOk(caches', slabs - {s})
  {
    hide HandedOut;
    var slabs' := slabs - {s};
    forall t | t in slabs' && slabs'[t].mgmt.Some?
      ensures InUse(slabs', slabs'[t].mgmt.value) && slabs'[slabs'[t].mgmt.value.slab].cache == MGMT
    {
      assert InUse(slabs, slabs[t].mgmt.value);
    }
  }

  // ----- addresses of objects

  /** Where object o lies, for a slab of the given layout. */
  function ObjAddr(b: Buddy, spec: CacheSpec, o: ObjRef): nat
    requires o.slab.zone < |b.pools|
  {
    PageToAddr(b, o.slab) + Offset(spec) + o.nr * spec.objSize
  }

  ghost function SpecOf(h: Heap, s: PageRef): CacheSpec
    requires s in h.slabs && h.slabs[s].cache < |h.caches|
  {
    h.caches[h.slabs[s].cache].spec
  }

  /** The bytes from a to a' and from b to b' do not overlap. */
  ghost predicate Disjoint(a: nat, a': nat, b: nat, b': nat) {
    a' <= b || b' <= a
  }

  /** Objects lie inside their slab, behind the management data if that is on the slab. */
  lemma ObjectInside(h: Heap, vs: seq<View>, o: ObjRef)
    requires HeapOk(h, vs) && InUse(h.slabs, o)
    ensures o.slab in h.slabs && o.slab in Blocks(h.buddy) && o.slab.zone < |h.buddy.pools| && h.slabs[o.slab].cache < |h.caches|
    ensures var spec := SpecOf(h, o.slab);
            && LaidOut(spec) && o.nr < spec.num && Blocks(h.buddy)[o.slab] == spec.order
            && PageToAddr(h.buddy, o.slab) + Offset(spec) <= ObjAddr(h.buddy, spec, o)
            && ObjAddr(h.buddy, spec, o) + spec.objSize <= PageToAddr(h.buddy, o.slab) + BlockSize(spec.order)
  {
    hide SystemOk, SlabOk, ListsOk, TagsOk, MgmtOk, Blocks, FreeObjects, LaidOut, Offset, BlockSize;
    BlockInPool(h.buddy, vs, o.slab);
    var spec := SpecOf(h, o.slab);
    SlotInside(spec, o.nr);
  }

  lemma SlotInside(spec: CacheSpec, nr: nat)
    requires LaidOut(spec) && nr < spec.num
    ensures 0 <= nr * spec.objSize && Offset(spec) + nr * spec.objSize + spec.objSize <= BlockSize(spec.order)
  {
    hide ManagementSize, Pow2;
    SlotEnd(nr, spec.num, spec.objSize);
    MulMono(0, nr, spec.objSize);
  }

  lemma SlotEnd(nr: nat, num: nat, size: nat)
    requires nr < num
    ensures nr * size + size <= num * size
  {
    Distribute(nr, 1, size);
    MulMono(nr + 1, num, size);
  }

  /** Two objects in use share no byte. */
  lemma ObjectsDisjoint(h: Heap, vs: seq<View>, o: ObjRef, o': ObjRef)
    requires HeapOk(h, vs) && InUse(h.slabs, o) && InUse(h.slabs, o') && o != o'
    ensures o.slab.zone < |h.buddy.pools| && o'.slab.zone < |h.buddy.pools|
    ensures h.slabs[o.slab].cache < |h.caches| && h.slabs[o'.slab].cache < |h.caches|
    ensures var (a, a') := (ObjAddr(h.buddy, SpecOf(h, o.slab), o), ObjAddr(h.buddy, SpecOf(h, o'.slab), o'));
            Disjoint(a, a + SpecOf(h, o.slab).objSize, a', a' + SpecOf(h, o'.slab).objSize)
  {
    hide HeapOk, InUse, LaidOut, Blocks, Offset, Pow2;
    ObjectInside(h, vs, o);
    ObjectInside(h, vs, o');
    if o.slab == o'.slab {
      var size := h.caches[h.slabs[o.slab].cache].spec.objSize;
      if o.nr < o'.nr { SlotEnd(o.nr, o'.nr, size); } else { SlotEnd(o'.nr, o.nr, size); }
    } else {
      assert SystemOk(h.buddy, vs) by { HeapSystem(h, vs); }
      BlocksDisjoint(h.buddy, vs, o.slab, o'.slab);
    }
  }

  lemma HeapSystem(h: Heap, vs: seq<View>)
    requires HeapOk(h, vs)
    ensures SystemOk(h.buddy, vs)
  {
  }

  /** An object in use shares no byte with the management data on any slab. */
  lemma ObjectAvoidsHeaders(h: Heap, vs: seq<View>, o: ObjRef, s: PageRef)
    requires HeapOk(h, vs) && InUse(h.slabs, o) && s in h.slabs
    ensures o.slab.zone < |h.buddy.pools| && s.zone < |h.buddy.pools| && h.slabs[o.slab].cache < |h.caches| && h.slabs[s].cache < |h.caches|
    ensures var (a, t) := (ObjAddr(h.buddy, SpecOf(h, o.slab), o), PageToAddr(h.buddy, s));
            Disjoint(a, a + SpecOf(h, o.slab).objSize, t, t + Offset(SpecOf(h, s)))
  {
    hide InUse, Blocks, ManagementSize, Pow2, ListsOk, TagsOk, MgmtOk, SystemOk, SlabOk;
    ObjectInside(h, vs, o);
    BlockInPool(h.buddy, vs, s);
    if s != o.slab { BlocksDisjoint(h.buddy, vs, o.slab, s); }
    MulMono(0, SpecOf(h, s).num, SpecOf(h, s).objSize);
  }
}
