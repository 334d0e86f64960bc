/** How a slab cache is laid out (jiukun/slab.c): objects per slab, page order, and where the management data goes. */
module SlabSizing {
  import opened Bits

  const PAGE_SIZE: nat := 4096
  const SLAB_HEADER: nat := 32
  const BUFCTL_SIZE: nat := 4
  const SLAB_ALIGN: nat := 8
  const MAX_ORDER: nat := 11
  /** Objects of at least this size start with their management data off the slab. */
  const OFF_SLAB_SIZE: nat := 512

  function AlignCeil(x: nat): (r: nat)
    ensures x <= r < x + SLAB_ALIGN && r % SLAB_ALIGN == 0
  {
    CeilBounds(x);
    (x + SLAB_ALIGN - 1) / SLAB_ALIGN * SLAB_ALIGN
  }

  lemma CeilBounds(x: nat)
    ensures x <= (x + SLAB_ALIGN - 1) / SLAB_ALIGN * SLAB_ALIGN < x + SLAB_ALIGN
    ensures ((x + SLAB_ALIGN - 1) / SLAB_ALIGN * SLAB_ALIGN) % SLAB_ALIGN == 0
  {
    DivModDefinition(x + SLAB_ALIGN - 1, SLAB_ALIGN);
    MultipleMod((x + SLAB_ALIGN - 1) / SLAB_ALIGN, SLAB_ALIGN);
  }

  function Bytes(order: nat): nat {
    PAGE_SIZE * Pow2(order)
  }

  /** slab_t and num bufctl entries */
  function ManagementSize(num: nat): nat {
    AlignCeil(SLAB_HEADER + num * BUFCTL_SIZE)
  }

  function Needs(off: bool, size: nat, num: nat): nat {
    num * size + if off then 0 else ManagementSize(num)
  }

  // ----- _slabCacheEstimate

  lemma NeedsMono(off: bool, size: nat, i: nat, j: nat)
    requires i <= j
    ensures Needs(off, size, i) <= Needs(off, size, j)
  {
    MulMono(i, j, size);
    assert (SLAB_HEADER + i * BUFCTL_SIZE + 7) / 8 <= (SLAB_HEADER + j * BUFCTL_SIZE + 7) / 8;
  }

  lemma NeedsAtLeast(off: bool, size: nat, i: nat)
    requires size > 0
    ensures Needs(off, size, i) >= i
  {
    if i > 0 { MulAtLeast(i, size); }
  }

  /** num objects fit, and no more. */
  ghost predicate Largest(off: bool, size: nat, bytes: nat, num: nat) {
    Needs(off, size, num) <= bytes && forall j: nat :: Needs(off, size, j) <= bytes ==> j <= num
  }

  lemma LargestUnique(off: bool, size: nat, bytes: nat, a: nat, b: nat)
    requires Largest(off, size, bytes, a) && Largest(off, size, bytes, b)
    ensures a == b
  {
    hide Needs;
  }

  lemma LargestBy(off: bool, size: nat, bytes: nat, num: nat)
    requires Needs(off, size, num) <= bytes < Needs(off, size, num + 1)
    ensures Largest(off, size, bytes, num)
  {
    hide Needs;
    forall j: nat | Needs(off, size, j) <= bytes ensures j <= num {
      if j > num { NeedsMono(off, size, num + 1, j); }
    }
  }

  function CountFrom(off: bool, size: nat, bytes: nat, i: nat): (num: nat)
    requires size > 0 && Needs(off, size, i) <= bytes
    ensures Needs(off, size, num) <= bytes < Needs(off, size, num + 1)
    decreases bytes - i
  {
    NeedsAtLeast(off, size, i + 1);
    if Needs(off, size, i + 1) <= bytes then CountFrom(off, size, bytes, i + 1) else i
  }

  /** The number of objects a slab of the given order holds. */
  function Capacity(off: bool, size: nat, order: nat): nat
    requires size > 0
  {
    BytesPositive(order);
    CountFrom(off, size, Bytes(order), 0)
  }

  lemma BytesPositive(order: nat)
    ensures Bytes(order) >= PAGE_SIZE && Needs(false, 0, 0) == Needs(false, 1, 0) == 32
  {
    MulAtLeast(PAGE_SIZE, Pow2(order));
  }

  lemma CapacityLargest(off: bool, size: nat, order: nat)
    requires size > 0
    ensures Largest(off, size, Bytes(order), Capacity(off, size, order))
  {
    LargestBy(off, size, Bytes(order), Capacity(off, size, order));
  }

  /** _slabCacheEstimate: the most objects that fit beside their management data, and the bytes left over. */
  method Estimate(order: nat, size: nat, off: bool) returns (left: nat, num: nat)
    requires size > 0
    ensures Largest(off, size, Bytes(order), num) && num == Capacity(off, size, order)
    ensures left == Bytes(order) - Needs(off, size, num)
  {
    hide Needs, Bytes, Capacity;
    var bytes := Bytes(order);
    BytesPositive(order);
    NeedsAtZero(off, size);
    var i := 0;
    while Needs(off, size, i) <= bytes
      invariant i > 0 ==> Needs(off, size, i - 1) <= bytes
      decreases bytes + 1 - i
    {
      NeedsAtLeast(off, size, i);
      i := i + 1;
    }
    num := i - 1;
    LargestBy(off, size, bytes, num);
    CapacityLargest(off, size, order);
    LargestUnique(off, size, bytes, num, Capacity(off, size, order));
    left := bytes - Needs(off, size, num);
  }

  lemma NeedsAtZero(off: bool, size: nat)
    ensures Needs(off, size, 0) <= PAGE_SIZE
  {
  }

  // ----- the search for a page order in _createSlabCache

  /** What one round of the search does: leave the loop, or go round again at some order. */
  datatype Round = Stop | Again(order: int)

  function OneRound(off: bool, size: nat, limit: nat, order: nat): Round
    requires size > 0
  {
    var num := Capacity(off, size, order);
    if order >= MAX_ORDER then Stop
    else if num == 0 then Again(order + 1)
    else if off && num > limit then Again(order - 1)
    else if (Bytes(order) - Needs(off, size, num)) * 8 <= Bytes(order) then Stop
    else Again(order)
  }

  /** Found: the order at which the loop stops. Endless: a round leads back to an order already tried. */
  datatype Search = Found(order: nat) | Endless

  function SearchOrder(off: bool, size: nat, limit: nat, order: nat): Search
    requires size > 0
    decreases if order <= MAX_ORDER then MAX_ORDER + 1 - order else 0
  {
    match OneRound(off, size, limit, order)
    case Stop => Found(order)
    case Again(next) => if next <= order then Endless else SearchOrder(off, size, limit, next)
  }

  /** The smallest order from k on whose slab is at least size bytes, or the largest order. */
  function OrderFor(size: nat, k: nat): (r: nat)
    requires k <= MAX_ORDER
    ensures k <= r <= MAX_ORDER && (r < MAX_ORDER ==> size <= Bytes(r)) && (k < r ==> Bytes(r - 1) < size)
    decreases MAX_ORDER - k
  {
    if k == MAX_ORDER || size <= Bytes(k) then k else OrderFor(size, k + 1)
  }

  /** What a caller can compute beforehand: whether the search for this object size comes to an end, and where. */
  predicate Exits(size: nat)
    requires size > 0
  {
    var k := OrderFor(size, 0);
    || size < OFF_SLAB_SIZE
    || k == MAX_ORDER
    || (k == 0 && PAGE_SIZE % size * 8 <= PAGE_SIZE)
    || (k > 0 && (Bytes(k) - size) * 8 <= Bytes(k))
  }

  /** An object size as the search sees it: a multiple of the alignment. */
  ghost predicate Sized(size: nat) {
    size > 0 && size % SLAB_ALIGN == 0
  }

  lemma SmallCapacity(size: nat)
    requires Sized(size) && size < OFF_SLAB_SIZE
    ensures var num := Capacity(false, size, 0); num > 0 && (Bytes(0) - Needs(false, size, num)) * 8 <= Bytes(0)
  {
    hide Capacity, Needs, Bytes;
    var num := Capacity(false, size, 0);
    BytesOfZero();
    CapacityLargest(false, size, 0);
    NeedsOne(size);
    NeedsStep(size, num);
    assert Needs(false, size, num + 1) > Bytes(0);
  }

  lemma NeedsOne(size: nat)
    ensures Needs(false, size, 1) == size + 40
  {
  }

  lemma NeedsStep(size: nat, num: nat)
    ensures Needs(false, size, num + 1) <= Needs(false, size, num) + size + SLAB_ALIGN
  {
    Distribute(num, 1, size);
    assert (SLAB_HEADER + (num + 1) * BUFCTL_SIZE + 7) / 8 <= (SLAB_HEADER + num * BUFCTL_SIZE + 7) / 8 + 1;
  }

  lemma PageCapacity(size: nat)
    requires OFF_SLAB_SIZE <= size <= PAGE_SIZE
    ensures Capacity(true, size, 0) == PAGE_SIZE / size && 1 <= PAGE_SIZE / size <= 8
    ensures Bytes(0) - Needs(true, size, PAGE_SIZE / size) == PAGE_SIZE % size
  {
    hide CountFrom;
    var q := PAGE_SIZE / size;
    DivModDefinition(PAGE_SIZE, size);
    Distribute(q, 1, size);
    LargestBy(true, size, PAGE_SIZE, q);
    CapacityLargest(true, size, 0);
    LargestUnique(true, size, PAGE_SIZE, q, Capacity(true, size, 0));
    QuotientBounds(size, q);
  }

  lemma QuotientBounds(size: nat, q: nat)
    requires OFF_SLAB_SIZE <= size <= PAGE_SIZE && q * size <= PAGE_SIZE < (q + 1) * size
    ensures 1 <= q <= 8
  {
    if q > 8 { MulMono(9, q, size); }
  }

  /** Above one page, lower orders hold no object and the first that is large enough holds one. */
  lemma LargeCapacity(size: nat, order: nat)
    requires size > PAGE_SIZE
    ensures Bytes(order) < size ==> Capacity(true, size, order) == 0
    ensures order > 0 && Bytes(order - 1) < size <= Bytes(order) ==>
              Capacity(true, size, order) == 1 && Needs(true, size, 1) == size
  {
    hide CountFrom;
    CapacityLargest(true, size, order);
    if Bytes(order) < size {
      LargestBy(true, size, Bytes(order), 0);
      LargestUnique(true, size, Bytes(order), 0, Capacity(true, size, order));
    } else if order > 0 && Bytes(order - 1) < size {
      assert Bytes(order) == 2 * Bytes(order - 1);
      LargestBy(true, size, Bytes(order), 1);
      LargestUnique(true, size, Bytes(order), 1, Capacity(true, size, order));
    }
  }

  lemma {:induction false} LargeSearch(size: nat, limit: nat, order: nat)
    requires size > PAGE_SIZE && limit >= 1 && order <= MAX_ORDER && (order > 0 ==> Bytes(order - 1) < size)
    ensures var k := OrderFor(size, order);
            SearchOrder(true, size, limit, order) == if k == MAX_ORDER || (Bytes(k) - size) * 8 <= Bytes(k) then Found(k) else Endless
    decreases MAX_ORDER - order
  {
    hide Capacity, Needs, Bytes;
    LargeCapacity(size, order);
    BytesOfZero();
    if order < MAX_ORDER && Bytes(order) < size {
      LargeSearch(size, limit, order + 1);
    }
  }

  lemma BytesOfZero()
    ensures Bytes(0) == PAGE_SIZE
  {
  }

  /** The search ends exactly for the sizes that Exits describes, at the smallest order that can hold an object. */
  lemma SearchEndsIff(size: nat, limit: nat)
    requires Sized(size) && (size >= OFF_SLAB_SIZE ==> limit >= 8)
    ensures SearchOrder(size >= OFF_SLAB_SIZE, size, limit, 0) == if Exits(size) then Found(OrderFor(size, 0)) else Endless
  {
    hide Capacity, Needs;
    BytesOfZero();
    if size < OFF_SLAB_SIZE {
      SmallCapacity(size);
    } else if size <= PAGE_SIZE {
      PageCapacity(size);
    } else {
      LargeSearch(size, limit, 0);
      assert OrderFor(size, 0) > 0;
    }
  }

  /** Sizes that are powers of two always get an answer, and those of at least 512 bytes waste nothing. */
  lemma {:induction false} PowersExit(j: nat)
    requires 3 <= j <= 23
    ensures Exits(Pow2(j)) && Sized(Pow2(j))
    ensures j >= 9 ==> OrderFor(Pow2(j), 0) == if j <= 12 then 0 else j - 12
  {
    hide Bytes;
    BytesOfZero();
    Pow2Small();
    PowersOfTwo(j);
    if j > 12 { OrderForPower(j, 0); }
  }

  lemma PowersOfTwo(j: nat)
    requires 3 <= j
    ensures Pow2(j) % 8 == 0 && Pow2(j) > 0 && (j < 9 ==> Pow2(j) < 512) && (j >= 9 ==> Pow2(j) >= 512)
    ensures j <= 12 ==> Pow2(j) <= 4096 && 4096 % Pow2(j) == 0
    ensures j > 12 ==> Pow2(j) == Bytes(j - 12)
  {
    hide Pow2;
    Pow2Small();
    Pow2Add(j - 3, 3);
    MultipleMod(Pow2(j - 3), 8);
    Pow2Add(9, 3);
    Pow2Add(8, 1);
    if j < 9 { Pow2Mono(j, 8); } else { Pow2Mono(9, j); }
    if j <= 12 {
      Pow2Mono(j, 12);
      Pow2Add(12 - j, j);
      MultipleMod(Pow2(12 - j), Pow2(j));
    } else {
      Pow2Add(12, j - 12);
    }
  }

  lemma {:induction false} OrderForPower(j: nat, k: nat)
    requires 12 < j <= 23 && k <= j - 12 && Pow2(j) == Bytes(j - 12)
    ensures OrderFor(Pow2(j), k) == j - 12
    decreases j - k
  {
    hide Bytes, Pow2;
    if k < j - 12 {
      BytesGrow(k, j - 12);
      OrderForPower(j, k + 1);
    }
  }

  lemma BytesGrow(a: nat, b: nat)
    requires a < b
    ensures Bytes(a) < Bytes(b)
  {
    Pow2Mono(a, b);
  }

  // ----- the layout of a cache

  /** sc_u32ObjSize, sc_u32Order, sc_u32Num and the off-slab flag. */
  datatype CacheSpec = CacheSpec(objSize: nat, order: nat, num: nat, off: bool)

  datatype Creation = Created(spec: CacheSpec) | Refused | NeverReturns

  /** The sizing done by _createSlabCache for objects of the requested size. */
  function CreateCache(request: nat, limit: nat): Creation
    requires request > 0
  {
    var size := AlignCeil(request);
    var off := size >= OFF_SLAB_SIZE;
    match SearchOrder(off, size, limit, 0)
    case Endless => NeverReturns
    case Found(order) =>
      var num := Capacity(off, size, order);
      if num == 0 then Refused
      else Created(CacheSpec(size, order, num, off && Bytes(order) - Needs(off, size, num) < ManagementSize(num)))
  }

  /** Where the objects start, counted from the start of the slab's pages. */
  function Offset(c: CacheSpec): nat {
    if c.off then 0 else ManagementSize(c.num)
  }

  /** The objects and, on-slab, the management data fit into the pages, and the objects start in the first page. */
  ghost predicate LaidOut(c: CacheSpec) {
    && c.objSize > 0 && 0 < c.num <= 1024 && c.order <= MAX_ORDER
    && Offset(c) + c.num * c.objSize <= Bytes(c.order) && Offset(c) < PAGE_SIZE
    && (c.off ==> ManagementSize(c.num) <= 64)
  }

  /** Creation returns exactly for sizes that exit, is refused exactly above the largest slab, and otherwise lays the slab out. */
  lemma CreatedLaidOut(request: nat, limit: nat)
    requires request > 0 && (AlignCeil(request) >= OFF_SLAB_SIZE ==> limit >= 8)
    ensures CreateCache(request, limit).NeverReturns? <==> !Exits(AlignCeil(request))
    ensures CreateCache(request, limit).Refused? <==> AlignCeil(request) > Bytes(MAX_ORDER)
    ensures CreateCache(request, limit).Created? ==>
              var c := CreateCache(request, limit).spec;
              && c.objSize == AlignCeil(request) && c.order == OrderFor(c.objSize, 0) && LaidOut(c)
              && Largest(c.objSize >= OFF_SLAB_SIZE, c.objSize, Bytes(c.order), c.num)
              && (c.off <==> c.objSize >= OFF_SLAB_SIZE && c.num * c.objSize + ManagementSize(c.num) > Bytes(c.order))
  {
    hide Capacity, Needs, Bytes, SearchOrder, ManagementSize, Exits, OrderFor, AlignCeil, LaidOut, Largest;
    var size := AlignCeil(request);
    SearchEndsIff(size, limit);
    CapacityBounds(size);
    var off, order := size >= OFF_SLAB_SIZE, OrderFor(size, 0);
    var num := Capacity(off, size, order);
    CapacityLargest(off, size, order);
    ManagementBounds(off, size, num);
    if num > 0 { LaidOutAt(size); }
  }

  /** The layout that the search leads to. */
  lemma LaidOutAt(size: nat)
    requires Sized(size) && Capacity(size >= OFF_SLAB_SIZE, size, OrderFor(size, 0)) > 0
    ensures var off, order := size >= OFF_SLAB_SIZE, OrderFor(size, 0);
            var num := Capacity(off, size, order);
            LaidOut(CacheSpec(size, order, num, off && Bytes(order) - Needs(off, size, num) < ManagementSize(num)))
  {
    hide Capacity, Bytes, ManagementSize, OrderFor;
    var off, order := size >= OFF_SLAB_SIZE, OrderFor(size, 0);
    CapacityLargest(off, size, order);
    CapacityBounds(size);
    BytesOfZero();
    ManagementBounds(off, size, Capacity(off, size, order));
  }

  lemma CapacityBounds(size: nat)
    requires Sized(size)
    ensures var order := OrderFor(size, 0);
            var num := Capacity(size >= OFF_SLAB_SIZE, size, order);
            && (size < OFF_SLAB_SIZE ==> order == 0 && num > 0)
            && (size >= OFF_SLAB_SIZE ==> num <= 8)
            && (num == 0 <==> size > Bytes(MAX_ORDER)) && (size > Bytes(MAX_ORDER) ==> order == MAX_ORDER && Exits(size))
  {
    hide Capacity, Needs, Bytes;
    BytesOfZero();
    BytesGrow(0, MAX_ORDER);
    if size < OFF_SLAB_SIZE {
      SmallCapacity(size);
    } else if size <= PAGE_SIZE {
      PageCapacity(size);
    } else {
      var order := OrderFor(size, 0);
      LargeCapacity(size, order);
      if order < MAX_ORDER { BytesGrow(order, MAX_ORDER); }
    }
  }

  lemma ManagementBounds(off: bool, size: nat, num: nat)
    requires size > 0
    ensures num <= 8 ==> ManagementSize(num) <= 64
    ensures Needs(off, size, num) == num * size + if off then 0 else ManagementSize(num)
    ensures num > 0 ==> num * size >= size && num * size >= num
    ensures !off && Needs(off, size, num) <= PAGE_SIZE && size >= 8 ==> num <= 1024
  {
    if num > 0 {
      MulAtLeast(size, num);
      MulAtLeast(num, size);
      if size >= 8 { MulMono(8, size, num); }
    }
  }

  /** A size in the middle of the range for which creating a cache never returns. */
  lemma SomeSizesNeverExit(limit: nat)
    requires limit >= 8
    ensures CreateCache(1500, limit) == NeverReturns
  {
    hide SearchOrder;
    SearchEndsIff(1504, limit);
    BytesOfZero();
    assert OrderFor(1504, 0) == 0;
  }

  // ----- general caches

  /** jiukun/cachesizes.h */
  const GENERAL: seq<nat> := [32, 64, 128, 256, 512, 1024, 2048, 4096, 8192, 16384, 32768, 65536, 131072, 262144, 524288,
                              1048576, 2097152, 4194304, 8388608]

  /** The first general cache from i on whose objects are large enough. */
  function GeneralFor(size: int, i: nat): (r: nat)
    requires i <= |GENERAL|
    ensures i <= r <= |GENERAL| && (r < |GENERAL| ==> size <= GENERAL[r]) && forall j :: i <= j < r ==> GENERAL[j] < size
    decreases |GENERAL| - i
  {
    if i == |GENERAL| || size <= GENERAL[i] then i else GeneralFor(size, i + 1)
  }

  /** _findGeneralSlabCache, and the choice of cache in jf_jiukun_allocMemory. */
  method FindGeneral(size: int) returns (i: nat)
    ensures i == GeneralFor(size, 0)
  {
    i := 0;
    while i < |GENERAL| && size > GENERAL[i]
      invariant i <= |GENERAL| && GeneralFor(size, 0) == GeneralFor(size, i)
    {
      i := i + 1;
    }
  }

  /** Management data that stays off the slab fits an object of the 64-byte cache, and of no smaller one. */
  lemma ManagementGoesTo64(request: nat, limit: nat)
    requires request > 0 && (AlignCeil(request) >= OFF_SLAB_SIZE ==> limit >= 8)
    requires CreateCache(request, limit).Created? && CreateCache(request, limit).spec.off
    ensures GeneralFor(ManagementSize(CreateCache(request, limit).spec.num), 0) == 1
  {
    hide CreateCache, Exits, OrderFor, Bytes;
    CreatedLaidOut(request, limit);
    assert GENERAL[0] == 32 && GENERAL[1] == 64;
  }

  /** ijs_u32OffSlabLimit while the general caches are created, before cache i. */
  function LimitBefore(i: nat): nat
    requires i <= |GENERAL|
  {
    if i == 0 then 0 else if GENERAL[i - 1] < OFF_SLAB_SIZE then (GENERAL[i - 1] - SLAB_HEADER) / 2 else LimitBefore(i - 1)
  }

  lemma GeneralPower(i: nat)
    requires i < |GENERAL|
    ensures GENERAL[i] == Pow2(i + 5)
  {
    Pow2Small();
    var j := 0;
    while j < i
      invariant 0 <= j <= i && GENERAL[j] == Pow2(j + 5)
    {
      j := j + 1;
    }
  }

  lemma {:induction false} LimitIs(i: nat)
    requires 4 <= i <= |GENERAL|
    ensures LimitBefore(i) == 112
  {
    if i > 4 { LimitIs(i - 1); }
  }

  /** Every general cache is created; those of at least 512 bytes keep their management data off the slab. */
  lemma GeneralCreated(i: nat)
    requires i < |GENERAL|
    ensures CreateCache(GENERAL[i], LimitBefore(i)).Created?
    ensures var c := CreateCache(GENERAL[i], LimitBefore(i)).spec;
            c.objSize == GENERAL[i] && LaidOut(c) && (c.off <==> GENERAL[i] >= OFF_SLAB_SIZE)
  {
    hide SearchOrder, Capacity, Needs, Bytes, LaidOut, Exits, ManagementSize, Pow2, LimitBefore, OrderFor;
    GeneralPower(i);
    PowersExit(i + 5);
    if i >= 4 { LimitIs(i); }
    GeneralAligned(i);
    CreatedLaidOut(GENERAL[i], LimitBefore(i));
    GeneralWaste(i);
  }

  lemma GeneralAligned(i: nat)
    requires i < |GENERAL|
    ensures AlignCeil(GENERAL[i]) == GENERAL[i] && (GENERAL[i] >= OFF_SLAB_SIZE <==> i >= 4) && GENERAL[i] <= Bytes(MAX_ORDER)
  {
    BytesPowers();
  }

  lemma BytesPowers()
    ensures Bytes(MAX_ORDER) == 8388608
  {
    Pow2Small();
    Pow2Add(8, 3);
  }

  lemma GeneralWaste(i: nat)
    requires i < |GENERAL|
    ensures var size, order := GENERAL[i], OrderFor(GENERAL[i], 0);
            var num := Capacity(size >= OFF_SLAB_SIZE, size, order);
            size >= OFF_SLAB_SIZE ==> Bytes(order) - Needs(true, size, num) < ManagementSize(num)
  {
    hide Capacity, Needs, Pow2, OrderFor, Bytes;
    GeneralPower(i);
    PowersExit(i + 5);
    PowersOfTwo(i + 5);
    BytesOfZero();
    if i >= 4 {
      if i <= 7 {
        PageCapacity(GENERAL[i]);
      } else {
        BytesGrow(i - 8, i - 7);
        PowersOfTwo(i + 4);
        LargeCapacity(GENERAL[i], i - 7);
      }
    }
  }
}
