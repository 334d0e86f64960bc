/** The objects of one slab (jiukun/slab.c): the in-array list of free objects that bufctl links. */
module SlabChain {
  import opened Bits

  const BUFCTL_END: nat := 0xFFFF_FFFF

  /** The part of slab_t and its bufctl array that object allocation uses. */
  datatype Slab = Slab(inUse: int, free: nat, bufctl: seq<nat>)

  // ----- operations

  /** _initSlabCacheObjs */
  function NewSlab(num: nat): Slab {
    Slab(0, 0, seq(num, i => if i == num - 1 then BUFCTL_END else i + 1))
  }

  /** The slab after _allocOneObjFromTail; the object handed out is number s.free. */
  function TakeObject(s: Slab): Slab
    requires s.free < |s.bufctl|
  {
    Slab(s.inUse + 1, s.bufctl[s.free], s.bufctl)
  }

  /** The slab after _freeOneObj. */
  function GiveObject(s: Slab, nr: nat): Slab
    requires nr < |s.bufctl|
  {
    Slab(s.inUse - 1, nr, s.bufctl[nr := s.free])
  }

  // ----- the free list

  /** The objects met from cur on, following bufctl for at most fuel links. */
  ghost function Walk(bufctl: seq<nat>, cur: nat, fuel: nat): seq<nat>
    decreases fuel
  {
    if cur >= |bufctl| || fuel == 0 then [] else [cur] + Walk(bufctl, bufctl[cur], fuel - 1)
  }

  ghost function FreeObjects(s: Slab): seq<nat> {
    Walk(s.bufctl, s.free, |s.bufctl|)
  }

  ghost function HandedOut(s: Slab): set<nat> {
    set nr: nat | nr < |s.bufctl| && nr !in FreeObjects(s)
  }

  ghost function Link(chain: seq<nat>, i: nat): nat {
    if i < |chain| then chain[i] else BUFCTL_END
  }

  ghost predicate Distinct(chain: seq<nat>) {
    forall i, j :: 0 <= i < j < |chain| ==> chain[i] != chain[j]
  }

  /** chain is the whole free list: no object twice, ended by BUFCTL_END, and as long as the use count says. */
  ghost predicate Chained(s: Slab, chain: seq<nat>) {
    && Distinct(chain) && s.free == Link(chain, 0) && s.inUse + |chain| == |s.bufctl| < BUFCTL_END
    && forall i :: 0 <= i < |chain| ==> chain[i] < |s.bufctl| && s.bufctl[chain[i]] == Link(chain, i + 1)
  }

  ghost predicate SlabOk(s: Slab) {
    Chained(s, FreeObjects(s)) && |s.bufctl| > 0
  }

  lemma {:induction false} WalkIs(s: Slab, chain: seq<nat>, i: nat, fuel: nat)
    requires Chained(s, chain) && i <= |chain| <= fuel + i
    ensures Walk(s.bufctl, Link(chain, i), fuel) == chain[i..]
    decreases fuel
  {
    hide Distinct;
    if i < |chain| {
      WalkIs(s, chain, i + 1, fuel - 1);
      assert chain[i] < |s.bufctl| && s.bufctl[chain[i]] == Link(chain, i + 1);
      assert chain[i..] == [chain[i]] + chain[i + 1..];
    } else {
      assert chain[i..] == [];
    }
  }

  lemma {:induction false} DistinctBounded(chain: seq<nat>, n: nat)
    requires Distinct(chain) && forall i :: 0 <= i < |chain| ==> chain[i] < n
    ensures |chain| <= n
    ensures |chain| == n ==> forall x: nat :: x < n ==> x in chain
    decreases n
  {
    assert |chain| > 0 ==> 0 <= chain[0] < n;
    if n > 0 {
      var m := n - 1;
      if m in chain {
        var k :| 0 <= k < |chain| && chain[k] == m;
        var rest := chain[..k] + chain[k + 1..];
        assert forall i :: 0 <= i < |rest| ==> rest[i] == chain[if i < k then i else i + 1];
        DistinctBounded(rest, m);
        forall x: nat | |chain| == n && x < n ensures x in chain {
          assert x < m ==> x in rest;
        }
      } else {
        DistinctBounded(chain, m);
      }
    }
  }

  /** Any list with these properties is the one the links describe. */
  lemma ChainIs(s: Slab, chain: seq<nat>)
    requires Chained(s, chain) && |s.bufctl| > 0
    ensures SlabOk(s) && FreeObjects(s) == chain
  {
    DistinctBounded(chain, |s.bufctl|);
    WalkIs(s, chain, 0, |s.bufctl|);
  }

  // ----- what the operations do

  lemma NewSlabOk(num: nat)
    requires 0 < num < BUFCTL_END
    ensures SlabOk(NewSlab(num)) && HandedOut(NewSlab(num)) == {}
  {
    hide Walk, FreeObjects;
    var chain: seq<nat> := seq(num, i => i);
    forall nr | 0 <= nr < num ensures nr in chain { assert chain[nr] == nr; }
    ChainIs(NewSlab(num), chain);
  }

  /** A free object exists exactly when the slab is not fully used. */
  lemma FreeIff(s: Slab)
    requires SlabOk(s)
    ensures s.free == BUFCTL_END <==> s.inUse == |s.bufctl|
    ensures s.free != BUFCTL_END ==> s.free < |s.bufctl| && s.free !in HandedOut(s)
    ensures 0 <= s.inUse <= |s.bufctl| && 0 < |s.bufctl| < BUFCTL_END
  {
    var chain := FreeObjects(s);
    DistinctBounded(chain, |s.bufctl|);
    assert chain != [] ==> chain[0] in chain;
  }

  /** The object handed out was free, and it is the only one whose state changes. */
  lemma TakeKeeps(s: Slab)
    requires SlabOk(s) && s.free < |s.bufctl|
    ensures SlabOk(TakeObject(s)) && s.free !in HandedOut(s) && HandedOut(TakeObject(s)) == HandedOut(s) + {s.free}
  {
    hide Walk, FreeObjects;
    var chain := FreeObjects(s);
    assert chain[0] == s.free && chain == [chain[0]] + chain[1..];
    ChainIs(TakeObject(s), chain[1..]);
    assert s.free in chain && s.free !in chain[1..];
  }

  /** An object given back is free again, and it is the only one whose state changes. */
  lemma GiveKeeps(s: Slab, nr: nat)
    requires SlabOk(s) && nr in HandedOut(s)
    ensures SlabOk(GiveObject(s, nr)) && HandedOut(GiveObject(s, nr)) == HandedOut(s) - {nr} && s.inUse > 0
  {
    hide Walk, FreeObjects;
    var chain := FreeObjects(s);
    var s' := GiveObject(s, nr);
    GivenChain(s, chain, nr);
    ChainIs(s', [nr] + chain);
    DistinctBounded([nr] + chain, |s.bufctl|);
  }

  lemma GivenChain(s: Slab, chain: seq<nat>, nr: nat)
    requires Chained(s, chain) && nr < |s.bufctl| && nr !in chain
    ensures Chained(GiveObject(s, nr), [nr] + chain)
  {
    var s', chain' := GiveObject(s, nr), [nr] + chain;
    forall i | 0 <= i < |chain'| ensures chain'[i] < |s.bufctl| && s'.bufctl[chain'[i]] == Link(chain', i + 1) {
      if i > 0 { assert chain'[i] == chain[i - 1] && chain[i - 1] in chain; }
    }
  }

  ghost function Elements(chain: seq<nat>): set<nat> {
    set x | x in chain
  }

  ghost function UpTo(n: nat): (r: set<nat>)
    ensures |r| == n && forall x: nat :: x in r <==> x < n
  {
    if n == 0 then {} else UpTo(n - 1) + {n - 1}
  }

  /** The use count is the number of objects handed out. */
  lemma InUseCounts(s: Slab)
    requires SlabOk(s)
    ensures |HandedOut(s)| == s.inUse
  {
    hide Walk, FreeObjects, UpTo;
    var chain := FreeObjects(s);
    DistinctSize(chain);
    assert forall i :: 0 <= i < |chain| ==> chain[i] in chain;
    assert Elements(chain) <= UpTo(|s.bufctl|);
    assert HandedOut(s) == UpTo(|s.bufctl|) - Elements(chain);
  }

  lemma {:induction false} DistinctSize(chain: seq<nat>)
    requires Distinct(chain)
    ensures |Elements(chain)| == |chain|
  {
    if chain != [] {
      var t := chain[1..];
      assert chain == [chain[0]] + t;
      assert chain[0] !in t;
      DistinctSize(t);
      assert Elements(chain) == Elements(t) + {chain[0]};
    }
  }

  // ----- the slab as stored

  class StoredSlab {
    const bufctl: array<nat>
    var inUse: int
    var free: nat

    ghost function Value(): Slab
      reads this, bufctl
    {
      Slab(inUse, free, bufctl[..])
    }

    /** _slabMgmt and _initSlabCacheObjs */
    constructor (num: nat)
      requires num > 0
      ensures fresh(bufctl) && Value() == NewSlab(num)
    {
      bufctl := new nat[num];
      inUse := 0;
      free := 0;
      new;
      for i := 0 to num
        invariant inUse == 0 && fresh(bufctl) && forall j :: 0 <= j < i ==> bufctl[j] == j + 1
      {
        bufctl[i] := i + 1;
      }
      bufctl[num - 1] := BUFCTL_END;
      free := 0;
    }

    /** _allocOneObjFromTail: the number of the object handed out. */
    method AllocOne() returns (nr: nat)
      requires SlabOk(Value()) && free != BUFCTL_END
      modifies this
      ensures old(free) < bufctl.Length && nr == old(free) && Value() == TakeObject(old(Value()))
      ensures SlabOk(Value()) && nr !in old(HandedOut(Value())) && HandedOut(Value()) == old(HandedOut(Value())) + {nr}
    {
      hide SlabOk, HandedOut;
      FreeIff(Value());
      TakeKeeps(Value());
      inUse := inUse + 1;
      nr := free;
      free := bufctl[free];
    }

    /** _freeOneObj, for the object at offset bytes into the objects of the slab. */
    method FreeOne(offset: nat, objSize: nat, ghost nr: nat)
      requires SlabOk(Value()) && objSize > 0 && offset == nr * objSize && nr in HandedOut(Value())
      modifies this, bufctl
      ensures Value() == GiveObject(old(Value()), nr)
      ensures SlabOk(Value()) && HandedOut(Value()) == old(HandedOut(Value())) - {nr}
    {
      hide SlabOk;
      GiveKeeps(Value(), nr);
      var objnr := offset / objSize;
      DivModUnique(offset, objSize, nr, 0);
      bufctl[objnr] := free;
      free := objnr;
      inUse := inUse - 1;
    }
  }
}
