/** A slab cache of jiukun/slab.c as it is stored: three lists of slabs, and the slabs themselves, changed in place. */
module SlabCode {
  import opened Bits
  import opened BuddyZone
  import opened BuddySystem
  import opened SlabChain
  import opened SlabSizing
  import opened SlabHeap

  /** slab_cache_t, as cache number id */
  class SlabCache {
    const id: nat
    const spec: CacheSpec
    var full: seq<PageRef>
    var partial: seq<PageRef>
    var free: seq<PageRef>
    /** The slab_t of each slab, found by its pages. */
    var slabs: map<PageRef, StoredSlab>

    ghost function Lists(): Cache
      reads this
    {
      Cache(spec, full, partial, free)
    }

    ghost function Records(): (r: map<PageRef, SlabRec>)
      reads this`slabs, slabs.Values, set s | s in slabs :: slabs[s].bufctl
      ensures r.Keys == slabs.Keys && forall s :: s in slabs ==> r[s] == SlabRec(id, slabs[s].Value(), None)
    {
      map s | s in slabs :: SlabRec(id, slabs[s].Value(), None)
    }

    /** Every slab has its own storage. */
    ghost predicate Separate()
      reads this`slabs
    {
      forall s, t :: s in slabs && t in slabs && s != t ==> slabs[s] != slabs[t] && slabs[s].bufctl != slabs[t].bufctl
    }

    /** Each slab's free list is in order, and each slab is on the list that its use count calls for. */
    ghost predicate Valid()
      reads this, slabs.Values, set s | s in slabs :: slabs[s].bufctl
    {
      spec.num > 0 && Separate() && ListsOf(Lists(), Records(), id) && RecordsOk(Records(), spec.num)
    }

    constructor (id: nat, spec: CacheSpec)
      requires spec.num > 0
      ensures Valid() && this.id == id && this.spec == spec && slabs == map[]
    {
      this.id := id;
      this.spec := spec;
      full, partial, free, slabs := [], [], [], map[];
    }

    /** _allocObj on a cache that has a partial or a free slab, with _allocOneObjFromTail */
    method TakeObj() returns (o: ObjRef)
      requires Valid() && (partial != [] || free != [])
      modifies this, slabs.Values
      ensures Valid() && slabs == old(slabs) && o.slab in slabs
      ensures o == ObjRef(Chosen(old(Lists())), old(slabs[Chosen(Lists())].free)) && slabs[o.slab].Value() == TakeObject(old(slabs[Chosen(Lists())].Value()))
      ensures Lists() == ListsAfterTake(old(Lists()), slabs[o.slab].free == BUFCTL_END)
      ensures Records() == old(Records())[o.slab := old(Records())[o.slab].(objs := slabs[o.slab].Value())]
    {
      hide ListsOf, Separate, RecordsOk, Records, Chosen, ListsAfterTake, SlabOk;
      ghost var lists, recs := Lists(), Records();
      TakeReady(lists, recs, id, spec.num);
      var entry := Chosen(Cache(spec, full, partial, free));
      var nr := TakeIn(entry);
      RecordOkTaken(recs, entry, spec.num);
      MoveTaken(slabs[entry].free == BUFCTL_END);
      o := ObjRef(entry, nr);
    }

    /** _allocOneObjFromTail in slab s */
    method TakeIn(s: PageRef) returns (nr: nat)
      requires Separate() && s in slabs && SlabOk(slabs[s].Value()) && slabs[s].free < slabs[s].bufctl.Length
      modifies slabs[s]
      ensures nr == old(slabs[s].free) && slabs[s].Value() == TakeObject(old(slabs[s].Value()))
      ensures Records() == old(Records())[s := old(Records())[s].(objs := slabs[s].Value())]
    {
      hide SlabOk, Separate, TakeObject;
      OnlyThis(s);
      FreeIff(slabs[s].Value());
      ghost var recs := Records();
      nr := slabs[s].AllocOne();
      assert Records() == recs[s := recs[s].(objs := slabs[s].Value())];
    }

    /** The list moves of an allocation. */
    method MoveTaken(last: bool)
      requires partial != [] || free != []
      modifies this`full, this`partial, this`free
      ensures Lists() == ListsAfterTake(old(Lists()), last)
    {
      var entry;
      if partial == [] {
        entry := free[0];
        free := free[1..];
        partial := [entry];
      } else {
        entry := partial[0];
      }
      if last {
        partial := partial[1..];
        full := [entry] + full;
      }
    }

    /** The storage of slab s belongs to no other slab. */
    lemma OnlyThis(s: PageRef)
      requires Separate() && s in slabs
      ensures forall t :: t in slabs && t != s ==> slabs[t] != slabs[s] && slabs[t].bufctl != slabs[s].bufctl
    {
    }

    /** _freeOneObj for the object at offset bytes behind the first object of slab s. */
    method GiveObj(s: PageRef, offset: nat, ghost nr: nat)
      requires Valid() && s in slabs && spec.objSize > 0 && offset == nr * spec.objSize && nr in HandedOut(slabs[s].Value())
      modifies this, slabs[s], slabs[s].bufctl
      ensures Valid() && slabs == old(slabs)
      ensures slabs[s].Value() == GiveObject(old(slabs[s].Value()), nr) && Lists() == ListsAfterGive(old(Lists()), s, old(slabs[s].inUse))
      ensures Records() == old(Records())[s := old(Records())[s].(objs := slabs[s].Value())]
    {
      hide ListsOf, Separate, RecordsOk, Records, ListsAfterGive, HandedOut;
      ghost var lists, recs := Lists(), Records();
      GiveReady(recs, s, nr, spec.num);
      GiveLists(lists, recs, id, s, recs[s].(objs := GiveObject(recs[s].objs, nr)));
      RecordOkGiven(recs, s, nr, spec.num);
      var inUse := slabs[s].inUse;
      GiveIn(s, offset, nr);
      MoveGiven(s, inUse);
    }

    /** The object goes back to the free list of slab s. */
    method GiveIn(s: PageRef, offset: nat, ghost nr: nat)
      requires Separate() && s in slabs && SlabOk(slabs[s].Value()) && spec.objSize > 0 && offset == nr * spec.objSize && nr in HandedOut(slabs[s].Value())
      modifies slabs[s], slabs[s].bufctl
      ensures nr < |old(slabs[s].Value()).bufctl| && slabs[s].Value() == GiveObject(old(slabs[s].Value()), nr)
      ensures Records() == old(Records())[s := old(Records())[s].(objs := slabs[s].Value())]
    {
      hide SlabOk, Separate;
      OnlyThis(s);
      ghost var recs := Records();
      slabs[s].FreeOne(offset, spec.objSize, nr);
      assert Records() == recs[s := recs[s].(objs := slabs[s].Value())];
    }

    /** The list moves of a release. */
    method MoveGiven(s: PageRef, inUse: int)
      modifies this`full, this`partial, this`free
      ensures Lists() == ListsAfterGive(old(Lists()), s, inUse)
    {
      hide Unlink;
      if inUse - 1 == 0 {
        UnlinkSlab(s);
        free := [s] + free;
      } else if inUse == spec.num {
        UnlinkSlab(s);
        partial := [s] + partial;
      }
    }

    /** jf_listhead_del */
    method UnlinkSlab(s: PageRef)
      modifies this`full, this`partial, this`free
      ensures Lists() == Unlink(old(Lists()), s)
    {
      full, partial, free := WithoutSlab(full, s), WithoutSlab(partial, s), WithoutSlab(free, s);
    }

    /** The end of _growSlabCache: a new slab at the end of the free list. */
    method AddSlab(p: PageRef)
      requires Valid() && p !in slabs && spec.num < BUFCTL_END
      modifies this
      ensures Valid() && slabs.Keys == old(slabs.Keys) + {p} && fresh(slabs[p]) && fresh(slabs[p].bufctl)
      ensures Records() == old(Records())[p := SlabRec(id, NewSlab(spec.num), None)] && Lists() == old(Lists()).(free := old(free) + [p])
    {
      hide ListsOf, NewSlab, RecordsOk, Records, Separate;
      ghost var lists, recs := Lists(), Records();
      NewSlabOk(spec.num);
      NewSlabSize(spec.num);
      MakeLists(lists, recs, id, p, SlabRec(id, NewSlab(spec.num), None));
      RecordOkNew(recs, p, id, spec.num);
      PutSlab(p);
      free := free + [p];
    }

    method PutSlab(p: PageRef)
      requires Separate() && p !in slabs && spec.num > 0
      modifies this`slabs
      ensures Separate() && slabs.Keys == old(slabs.Keys) + {p} && fresh(slabs[p]) && fresh(slabs[p].bufctl)
      ensures Records() == old(Records())[p := SlabRec(id, NewSlab(spec.num), None)]
    {
      hide NewSlab;
      ghost var recs := Records();
      var slab := new StoredSlab(spec.num);
      slabs := slabs[p := slab];
      assert Records() == recs[p := SlabRec(id, NewSlab(spec.num), None)];
    }
  }

  /** Every slab has num objects and a free list in order. */
  ghost predicate RecordsOk(recs: map<PageRef, SlabRec>, num: nat) {
    forall s :: s in recs ==> SlabOk(recs[s].objs) && |recs[s].objs.bufctl| == num
  }

  lemma TakeReady(lists: Cache, recs: map<PageRef, SlabRec>, id: nat, num: nat)
    requires ListsOf(lists, recs, id) && RecordsOk(recs, num) && (lists.partial != [] || lists.free != [])
    ensures var s := Chosen(lists);
            && s in recs && SlabOk(recs[s].objs) && recs[s].objs.free < |recs[s].objs.bufctl|
            && var rec := recs[s].(objs := TakeObject(recs[s].objs));
               ListsOf(ListsAfterTake(lists, rec.objs.free == BUFCTL_END), recs[s := rec], id)
  {
    hide ListsOf, SlabOk, ListsAfterTake;
    TakeLists(lists, recs, id);
  }

  lemma RecordOkTaken(recs: map<PageRef, SlabRec>, s: PageRef, num: nat)
    requires RecordsOk(recs, num) && s in recs && recs[s].objs.free < |recs[s].objs.bufctl|
    ensures RecordsOk(recs[s := recs[s].(objs := TakeObject(recs[s].objs))], num)
  {
    hide SlabOk;
    SlabChain.TakeKeeps(recs[s].objs);
  }

  lemma GiveReady(recs: map<PageRef, SlabRec>, s: PageRef, nr: nat, num: nat)
    requires RecordsOk(recs, num) && s in recs && nr in HandedOut(recs[s].objs)
    ensures SlabOk(recs[s].objs) && nr < |recs[s].objs.bufctl| == num && 0 < recs[s].objs.inUse <= num
  {
    hide SlabOk;
    FreeIff(recs[s].objs);
    GiveKeeps(recs[s].objs, nr);
  }

  lemma RecordOkGiven(recs: map<PageRef, SlabRec>, s: PageRef, nr: nat, num: nat)
    requires RecordsOk(recs, num) && s in recs && nr in HandedOut(recs[s].objs)
    ensures nr < |recs[s].objs.bufctl| && RecordsOk(recs[s := recs[s].(objs := GiveObject(recs[s].objs, nr))], num)
  {
    hide SlabOk;
    GiveKeeps(recs[s].objs, nr);
  }

  lemma RecordOkNew(recs: map<PageRef, SlabRec>, p: PageRef, id: nat, num: nat)
    requires RecordsOk(recs, num) && 0 < num < BUFCTL_END
    ensures RecordsOk(recs[p := SlabRec(id, NewSlab(num), None)], num)
  {
    hide SlabOk;
    NewSlabOk(num);
  }
}
