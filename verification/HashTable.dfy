/** The resizing chained hash table (jiutai/jf_hashtable.c), against a finite map. */
module HashTable {
  import opened Bits

  datatype Entry<K, V> = Entry(key: K, value: V)

  /** The bucket array, each bucket a chain of entries. */
  type Buckets<K, V> = seq<seq<Entry<K, V>>>

  const PRIMES: seq<nat> := [
    3, 7, 13, 31, 61, 127, 251, 509, 1021, 2039, 4093, 8191, 16381, 26209, 41941, 67121, 107441, 171917, 275083, 440159,
    704269, 1126831, 1802989, 2884787, 4615661, 7385057, 11816111, 18905813, 30249367, 48399019, 77438437, 123901501,
    198242441, 317187907, 507500657, 812001067, 1299201731, 2078722769]

  const NUM_OF_PRIMES: nat := 38

  /** ls_nHashTablePrimes */
  function Prime(i: nat): nat
    requires i < NUM_OF_PRIMES
  {
    PRIMES[i]
  }

  const U32: nat := 0x1_0000_0000

  /** Where the entries of a hash value go: its absolute value modulo the table size. */
  function Slot(h: int, size: nat): (r: nat)
    requires size > 0
    ensures r < size
  {
    (if h < 0 then -h else h) % size
  }

  // ----- what the buckets hold

  ghost predicate Keyed<K(!new), V(!new)>(chain: seq<Entry<K, V>>) {
    forall i, j :: 0 <= i < j < |chain| ==> chain[i].key != chain[j].key
  }

  ghost predicate HasKey<K(!new), V(!new)>(chain: seq<Entry<K, V>>, k: K) {
    exists j :: 0 <= j < |chain| && chain[j].key == k
  }

  /** The chain of slot i holds exactly the entries of m that hash there, each once. */
  ghost predicate ChainHolds<K(!new), V(!new)>(hash: K -> int, size: nat, i: nat, chain: seq<Entry<K, V>>, m: map<K, V>)
    requires size > 0
  {
    && Keyed(chain)
    && (forall j :: 0 <= j < |chain| ==> Slot(hash(chain[j].key), size) == i && chain[j].key in m && m[chain[j].key] == chain[j].value)
    && (forall k :: k in m && Slot(hash(k), size) == i ==> HasKey(chain, k))
  }

  /** The table holds exactly the map m. */
  ghost predicate Holds<K(!new), V(!new)>(hash: K -> int, b: Buckets<K, V>, m: map<K, V>) {
    |b| > 0 && forall i :: 0 <= i < |b| ==> ChainHolds(hash, |b|, i, b[i], m)
  }

  /** The length of the first n chains together. */
  ghost function Total<K(!new), V(!new)>(b: Buckets<K, V>, n: nat): nat
    requires n <= |b|
  {
    if n == 0 then 0 else Total(b, n - 1) + |b[n - 1]|
  }

  lemma {:induction false} TotalChange<K(!new), V(!new)>(b: Buckets<K, V>, i: nat, chain: seq<Entry<K, V>>, n: nat)
    requires n <= |b| && i < |b|
    ensures Total(b[i := chain], n) == Total(b, n) + if i < n then |chain| - |b[i]| else 0
  {
    if n > 0 { TotalChange(b, i, chain, n - 1); }
  }

  /** The position of a key in its chain, or the end of the chain. */
  ghost predicate Position<K(!new), V(!new)>(chain: seq<Entry<K, V>>, k: K, j: nat) {
    j <= |chain| && (j < |chain| ==> chain[j].key == k) && (j == |chain| ==> !HasKey(chain, k))
  }

  /** A lookup gives what the map gives. */
  lemma LookupAgrees<K(!new), V(!new)>(hash: K -> int, b: Buckets<K, V>, m: map<K, V>, k: K, j: nat)
    requires Holds(hash, b, m) && Position(b[Slot(hash(k), |b|)], k, j)
    ensures var chain := b[Slot(hash(k), |b|)]; (j < |chain| <==> k in m) && (j < |chain| ==> m[k] == chain[j].value)
  {
    hide Slot;
    var i := Slot(hash(k), |b|);
    assert ChainHolds(hash, |b|, i, b[i], m);
  }

  lemma OtherChain<K(!new), V(!new)>(hash: K -> int, size: nat, i: nat, chain: seq<Entry<K, V>>, m: map<K, V>, m': map<K, V>, k: K)
    requires size > 0 && ChainHolds(hash, size, i, chain, m) && Slot(hash(k), size) != i
    requires forall x :: x != k ==> (x in m' <==> x in m) && (x in m ==> m'[x] == m[x])
    ensures ChainHolds(hash, size, i, chain, m')
  {
    hide Slot, Keyed, HasKey;
  }

  /** One chain changed together with the map. */
  lemma OneChainChanged<K(!new), V(!new)>(hash: K -> int, b: Buckets<K, V>, m: map<K, V>, k: K, chain: seq<Entry<K, V>>, m': map<K, V>)
    requires Holds(hash, b, m) && ChainHolds(hash, |b|, Slot(hash(k), |b|), chain, m')
    requires forall x :: x != k ==> (x in m' <==> x in m) && (x in m ==> m'[x] == m[x])
    ensures Holds(hash, b[Slot(hash(k), |b|) := chain], m')
  {
    hide Slot, ChainHolds;
    var b' := b[Slot(hash(k), |b|) := chain];
    forall i | 0 <= i < |b'| ensures ChainHolds(hash, |b'|, i, b'[i], m') {
      if i != Slot(hash(k), |b|) { OtherChain(hash, |b|, i, b[i], m, m', k); }
    }
  }

  /** A new entry goes to the end of its chain. */
  lemma AppendHolds<K(!new), V(!new)>(hash: K -> int, b: Buckets<K, V>, m: map<K, V>, e: Entry<K, V>)
    requires Holds(hash, b, m) && e.key !in m
    ensures var i := Slot(hash(e.key), |b|); Holds(hash, b[i := b[i] + [e]], m[e.key := e.value])
  {
    hide Slot;
    var i, m' := Slot(hash(e.key), |b|), m[e.key := e.value];
    var chain := b[i] + [e];
    assert ChainHolds(hash, |b|, i, b[i], m);
    forall k | k in m' && Slot(hash(k), |b|) == i ensures HasKey(chain, k) {
      if k == e.key {
        assert chain[|b[i]|].key == k;
      } else {
        var j :| 0 <= j < |b[i]| && b[i][j].key == k;
        assert chain[j].key == k;
      }
    }
    OneChainChanged(hash, b, m, e.key, chain, m');
  }

  /** An entry is replaced where it stands. */
  lemma ReplaceHolds<K(!new), V(!new)>(hash: K -> int, b: Buckets<K, V>, m: map<K, V>, e: Entry<K, V>, j: nat)
    requires Holds(hash, b, m) && var i := Slot(hash(e.key), |b|); j < |b[i]| && b[i][j].key == e.key
    ensures var i := Slot(hash(e.key), |b|); Holds(hash, b[i := b[i][j := e]], m[e.key := e.value])
  {
    hide Slot;
    var i, m' := Slot(hash(e.key), |b|), m[e.key := e.value];
    var chain := b[i][j := e];
    assert ChainHolds(hash, |b|, i, b[i], m);
    assert forall x :: 0 <= x < |chain| ==> chain[x].key == b[i][x].key;
    forall k | k in m' && Slot(hash(k), |b|) == i ensures HasKey(chain, k) {
      var x :| 0 <= x < |b[i]| && b[i][x].key == k;
      assert chain[x].key == k;
    }
    OneChainChanged(hash, b, m, e.key, chain, m');
  }

  /** An entry is unlinked from its chain. */
  lemma RemoveHolds<K(!new), V(!new)>(hash: K -> int, b: Buckets<K, V>, m: map<K, V>, k: K, j: nat)
    requires Holds(hash, b, m) && var i := Slot(hash(k), |b|); j < |b[i]| && b[i][j].key == k
    ensures var i := Slot(hash(k), |b|); Holds(hash, b[i := b[i][..j] + b[i][j + 1..]], m - {k})
  {
    hide Slot;
    var i, m' := Slot(hash(k), |b|), m - {k};
    var chain := b[i][..j] + b[i][j + 1..];
    assert ChainHolds(hash, |b|, i, b[i], m);
    assert forall x :: 0 <= x < |chain| ==> chain[x] == b[i][if x < j then x else x + 1];
    forall y | y in m' && Slot(hash(y), |b|) == i ensures HasKey(chain, y) {
      var x :| 0 <= x < |b[i]| && b[i][x].key == y;
      assert chain[if x < j then x else x - 1].key == y;
    }
    OneChainChanged(hash, b, m, k, chain, m');
  }

  lemma EmptyHolds<K(!new), V(!new)>(hash: K -> int, b: Buckets<K, V>)
    requires |b| > 0 && forall i :: 0 <= i < |b| ==> b[i] == []
    ensures Holds(hash, b, map[])
  {
  }

  lemma {:induction false} EmptyTotal<K(!new), V(!new)>(b: Buckets<K, V>, n: nat)
    requires n <= |b| && forall i :: 0 <= i < |b| ==> b[i] == []
    ensures Total(b, n) == 0
  {
    if n > 0 { EmptyTotal(b, n - 1); }
  }

  // ----- resizing: the part of the map that the chains before slot i and the first j entries of chain i hold

  ghost predicate MovedKey<K(!new), V(!new)>(hash: K -> int, old': Buckets<K, V>, i: nat, j: nat, k: K)
    requires |old'| > 0
  {
    var s := Slot(hash(k), |old'|);
    s < i || (s == i && exists x :: 0 <= x < j && x < |old'[s]| && old'[s][x].key == k)
  }

  /** part is what has been moved of m. */
  ghost predicate Moved<K(!new), V(!new)>(hash: K -> int, old': Buckets<K, V>, m: map<K, V>, i: nat, j: nat, part: map<K, V>)
    requires |old'| > 0
  {
    && (forall k :: k in part <==> k in m && MovedKey(hash, old', i, j, k))
    && (forall k :: k in part ==> part[k] == m[k])
  }

  lemma NothingMoved<K(!new), V(!new)>(hash: K -> int, old': Buckets<K, V>, m: map<K, V>)
    requires |old'| > 0
    ensures Moved(hash, old', m, 0, 0, map[])
  {
  }

  lemma AllMoved<K(!new), V(!new)>(hash: K -> int, old': Buckets<K, V>, m: map<K, V>, part: map<K, V>)
    requires |old'| > 0 && Moved(hash, old', m, |old'|, 0, part)
    ensures part == m
  {
    hide Slot;
  }

  /** Entry j of chain i is not moved yet, and moving it adds exactly it. */
  lemma MoveEntry<K(!new), V(!new)>(hash: K -> int, old': Buckets<K, V>, m: map<K, V>, i: nat, j: nat, part: map<K, V>)
    requires Holds(hash, old', m) && i < |old'| && j < |old'[i]| && Moved(hash, old', m, i, j, part)
    ensures var e := old'[i][j]; e.key !in part && Moved(hash, old', m, i, j + 1, part[e.key := e.value])
  {
    hide Slot;
    var e := old'[i][j];
    assert ChainHolds(hash, |old'|, i, old'[i], m);
    forall k ensures MovedKey(hash, old', i, j + 1, k) <==> MovedKey(hash, old', i, j, k) || k == e.key {
      if MovedKey(hash, old', i, j + 1, k) && k != e.key && Slot(hash(k), |old'|) == i {
        var x :| 0 <= x < j + 1 && old'[i][x].key == k;
        assert x < j;
      }
      if k == e.key { assert old'[i][j].key == k; }
    }
  }

  /** A chain whose entries have all moved is done. */
  lemma ChainMoved<K(!new), V(!new)>(hash: K -> int, old': Buckets<K, V>, m: map<K, V>, i: nat, part: map<K, V>)
    requires Holds(hash, old', m) && i < |old'| && Moved(hash, old', m, i, |old'[i]|, part)
    ensures Moved(hash, old', m, i + 1, 0, part)
  {
    hide Slot;
    assert ChainHolds(hash, |old'|, i, old'[i], m);
    forall k | k in m ensures MovedKey(hash, old', i + 1, 0, k) <==> MovedKey(hash, old', i, |old'[i]|, k) {
      if Slot(hash(k), |old'|) == i { assert HasKey(old'[i], k); }
    }
  }

  // ----- the threshold

  function Ceil80(size: nat): nat {
    (4 * size + 4) / 5
  }

  /** _setHashTableThreshold, in 32-bit arithmetic */
  function Threshold(size: nat): nat {
    (4 * size % U32 + 4) % U32 / 5
  }

  /** The threshold is 80 per cent of the size, rounded up, exactly for sizes below 2^30 - 1. */
  lemma ThresholdExactIff(size: nat)
    requires size < U32
    ensures Threshold(size) == Ceil80(size) <==> 4 * size + 4 < U32
    ensures Threshold(size) <= Ceil80(size)
  {
  }

  /** Of the table sizes, the two largest overflow. */
  lemma PrimeThresholds(i: nat)
    requires i < NUM_OF_PRIMES
    ensures 0 < Prime(i) < U32 && (4 * Prime(i) + 4 < U32 <==> i <= 35)
    ensures i + 1 < NUM_OF_PRIMES ==> Ceil80(Prime(i)) < Ceil80(Prime(i + 1))
  {
  }

  /** The size search of jf_hashtable_create: the first table size that is large enough. */
  method FindPrime(minSize: nat) returns (i: nat)
    requires minSize <= 2078722769
    ensures i < NUM_OF_PRIMES && Prime(i) >= minSize && forall j :: 0 <= j < i ==> Prime(j) < minSize
  {
    i := 0;
    while minSize > Prime(i)
      invariant i < NUM_OF_PRIMES && forall j :: 0 <= j < i ==> Prime(j) < minSize
      decreases NUM_OF_PRIMES - i
    {
      LastPrime(i);
      i := i + 1;
    }
  }

  lemma LastPrime(i: nat)
    requires i < NUM_OF_PRIMES && Prime(i) < 2078722769
    ensures i + 1 < NUM_OF_PRIMES
  {
  }

  // ----- the table as stored

  datatype Option<+T> = None | Some(value: T)

  class Table<K(!new, ==), V(!new)> {
    const hash: K -> int
    var buckets: array<seq<Entry<K, V>>>
    var count: nat
    var threshold: nat
    var index: nat
    ghost var contents: map<K, V>

    ghost predicate Valid()
      reads this, buckets
    {
      && index < NUM_OF_PRIMES && buckets.Length == Prime(index) && threshold == Threshold(Prime(index))
      && Holds(hash, buckets[..], contents) && count == Total(buckets[..], buckets.Length) == |contents| && count <= Ceil80(Prime(index))
    }

    /** jf_hashtable_create */
    constructor (hash: K -> int, minSize: nat)
      requires minSize <= 2078722769
      ensures Valid() && contents == map[] && fresh(buckets) && this.hash == hash && buckets.Length >= minSize
    {
      hide Prime, Threshold, Ceil80;
      this.hash := hash;
      var i := FindPrime(minSize);
      PrimeThresholds(i);
      index, count, threshold, contents := i, 0, Threshold(Prime(i)), map[];
      buckets := new seq<Entry<K, V>>[Prime(i)](_ => []);
      new;
      EmptyHolds(this.hash, buckets[..]);
      EmptyTotal(buckets[..], buckets.Length);
    }

    /** _getPositionOfKey */
    method GetPosition(k: K) returns (i: nat, j: nat)
      requires Valid()
      ensures i == Slot(hash(k), buckets.Length) && Position(buckets[i], k, j)
      ensures (j < |buckets[i]| <==> k in contents) && (j < |buckets[i]| ==> contents[k] == buckets[i][j].value)
    {
      hide Slot, Prime, Total, Threshold, Ceil80;
      i := SlotOf(hash(k), buckets.Length);
      j := FindKey(buckets[i], k);
      LookupAgrees(hash, buckets[..], contents, k, j);
    }

    /** jf_hashtable_getEntry */
    method GetEntry(k: K) returns (r: Option<V>)
      requires Valid()
      ensures r == if k in contents then Some(contents[k]) else None
    {
      hide Valid;
      var i, j := GetPosition(k);
      r := if j < |buckets[i]| then Some(buckets[i][j].value) else None;
    }

    /** jf_hashtable_removeEntry: whether there was an entry with that key */
    method RemoveEntry(k: K) returns (found: bool)
      requires Valid()
      modifies this`count, this`contents, buckets
      ensures Valid() && found == (k in old(contents)) && contents == old(contents) - {k}
    {
      hide Slot, Prime, Threshold, Ceil80, Total, Holds;
      var i, j := GetPosition(k);
      found := j < |buckets[i]|;
      if found {
        ghost var b := buckets[..];
        var chain := buckets[i][..j] + buckets[i][j + 1..];
        RemoveHolds(hash, b, contents, k, j);
        TotalChange(b, i, chain, |b|);
        LessOne(contents, k);
        buckets[i] := chain;
        assert buckets[..] == b[i := chain];
        count := count - 1;
        contents := contents - {k};
      } else {
        assert contents - {k} == contents;
      }
    }

    /** The inner loop of _resizeHashTable: the entries of one old chain go to their new chains. */
    method MoveChain(target: array<seq<Entry<K, V>>>, i: nat, ghost part: map<K, V>) returns (ghost part': map<K, V>)
      requires Holds(hash, buckets[..], contents) && i < buckets.Length && target != buckets
      requires Holds(hash, target[..], part) && Moved(hash, buckets[..], contents, i, 0, part)
      modifies target
      ensures Holds(hash, target[..], part') && Moved(hash, buckets[..], contents, i + 1, 0, part')
      ensures Total(target[..], target.Length) == old(Total(target[..], target.Length)) + |buckets[i]|
    {
      hide Slot, Holds, Total, Moved;
      part' := part;
      HoldsSome(hash, target[..], part);
      for j := 0 to |buckets[i]|
        invariant Holds(hash, target[..], part') && Moved(hash, buckets[..], contents, i, j, part')
        invariant Total(target[..], target.Length) == old(Total(target[..], target.Length)) + j
      {
        var e := buckets[i][j];
        MoveEntry(hash, buckets[..], contents, i, j, part');
        part' := AddLast(hash, target, e, part');
      }
      ChainMoved(hash, buckets[..], contents, i, part');
    }

    /** _resizeHashTable; without memory for the new array nothing changes. */
    method Resize(memory: bool) returns (ok: bool)
      requires Valid() && index + 1 < NUM_OF_PRIMES
      modifies this`buckets, this`index, this`threshold
      ensures Valid() && ok == memory && index == old(index) + (if ok then 1 else 0) && (fresh(buckets) || buckets == old(buckets))
    {
      hide Slot, Prime, Threshold, Ceil80, Total, Holds, Moved;
      ok := memory;
      if !memory { return; }
      PrimeThresholds(index + 1);
      PrimeThresholds(index);
      var target := new seq<Entry<K, V>>[Prime(index + 1)](_ => []);
      ghost var part: map<K, V> := map[];
      EmptyHolds(hash, target[..]);
      EmptyTotal(target[..], target.Length);
      NothingMoved(hash, buckets[..], contents);
      TotalOfNone(buckets[..]);
      var was := buckets;
      for i := 0 to was.Length
        invariant buckets == was && index == old(index) && Valid() && fresh(target)
        invariant Holds(hash, target[..], part) && Moved(hash, buckets[..], contents, i, 0, part)
        invariant Total(target[..], target.Length) == Total(buckets[..], i)
      {
        TotalStep(buckets[..], i);
        part := MoveChain(target, i, part);
      }
      AllMoved(hash, buckets[..], contents, part);
      buckets, index := target, index + 1;
      threshold := Threshold(Prime(index));
    }

    /** _insertAtPosition at the end of chain i; bigMemory and memory tell whether the two allocations succeed. */
    method InsertAtEnd(e: Entry<K, V>, at: nat, bigMemory: bool, memory: bool) returns (ok: bool)
      requires Valid() && e.key !in contents && at == Slot(hash(e.key), buckets.Length)
      requires index + 1 < NUM_OF_PRIMES || count < threshold
      modifies this, buckets
      ensures Valid() && (fresh(buckets) || buckets == old(buckets))
      ensures ok == (memory && (old(count < threshold) || bigMemory))
      ensures contents == if ok then old(contents)[e.key := e.value] else old(contents)
    {
      hide Slot, Prime, Threshold, Ceil80, Total, Holds;
      var i := at;
      if count >= threshold {
        ok := Resize(bigMemory);
        if !ok { return; }
        var j;
        i, j := GetPosition(e.key);
      }
      ok := memory;
      if memory {
        RoomForOne(index, count);
        OneMore(contents, e.key, e.value);
        contents := AddLast(hash, buckets, e, contents);
        count := count + 1;
      }
    }

    /** jf_hashtable_insertEntry: an entry with the same key stays. */
    method InsertEntry(e: Entry<K, V>, bigMemory: bool, memory: bool) returns (ok: bool)
      requires Valid() && (index + 1 < NUM_OF_PRIMES || count < threshold)
      modifies this, buckets
      ensures Valid() && (fresh(buckets) || buckets == old(buckets))
      ensures ok == (e.key in old(contents) || (memory && (old(count < threshold) || bigMemory)))
      ensures contents == if ok && e.key !in old(contents) then old(contents)[e.key := e.value] else old(contents)
    {
      hide Valid;
      var i, j := GetPosition(e.key);
      ok := true;
      if j == |buckets[i]| { ok := InsertAtEnd(e, i, bigMemory, memory); }
    }

    /** jf_hashtable_overwriteEntry: an entry with the same key is replaced. */
    method OverwriteEntry(e: Entry<K, V>, bigMemory: bool, memory: bool) returns (ok: bool)
      requires Valid() && (index + 1 < NUM_OF_PRIMES || count < threshold)
      modifies this, buckets
      ensures Valid() && (fresh(buckets) || buckets == old(buckets))
      ensures ok == (e.key in old(contents) || (memory && (old(count < threshold) || bigMemory)))
      ensures contents == if ok then old(contents)[e.key := e.value] else old(contents)
    {
      hide Slot, Prime, Threshold, Ceil80, Total, Holds;
      var i, j := GetPosition(e.key);
      if j < |buckets[i]| {
        ghost var b := buckets[..];
        ReplaceHolds(hash, b, contents, e, j);
        TotalChange(b, i, b[i][j := e], |b|);
        OneMore(contents, e.key, e.value);
        buckets[i] := buckets[i][j := e];
        assert buckets[..] == b[i := b[i][j := e]];
        contents := contents[e.key := e.value];
        ok := true;
      } else {
        ok := InsertAtEnd(e, i, bigMemory, memory);
      }
    }
  }

  /** The entry goes behind the last one of its chain. */
  method AddLast<K(!new, ==), V(!new)>(hash: K -> int, b: array<seq<Entry<K, V>>>, e: Entry<K, V>, ghost m: map<K, V>) returns (ghost m': map<K, V>)
    requires b.Length > 0 && Holds(hash, b[..], m) && e.key !in m
    modifies b
    ensures m' == m[e.key := e.value] && Holds(hash, b[..], m')
    ensures Total(b[..], b.Length) == old(Total(b[..], b.Length)) + 1
  {
    hide Slot, Holds, Total;
    var i := SlotOf(hash(e.key), b.Length);
    AppendHolds(hash, b[..], m, e);
    TotalChange(b[..], i, b[i] + [e], b.Length);
    ghost var was := b[..];
    b[i] := b[i] + [e];
    assert b[..] == was[i := was[i] + [e]];
    m' := m[e.key := e.value];
  }

  lemma HoldsSome<K(!new), V(!new)>(hash: K -> int, b: Buckets<K, V>, m: map<K, V>)
    requires Holds(hash, b, m)
    ensures |b| > 0
  {
  }

  lemma TotalOfNone<K(!new), V(!new)>(b: Buckets<K, V>)
    ensures Total(b, 0) == 0
  {
  }

  lemma TotalStep<K(!new), V(!new)>(b: Buckets<K, V>, i: nat)
    requires i < |b|
    ensures Total(b, i + 1) == Total(b, i) + |b[i]|
  {
  }

  /** Below the threshold, or right after a resize, one more entry stays within 80 per cent. */
  lemma RoomForOne(index: nat, count: nat)
    requires index < NUM_OF_PRIMES && (count < Threshold(Prime(index)) || (index > 0 && count <= Ceil80(Prime(index - 1))))
    ensures count + 1 <= Ceil80(Prime(index))
  {
    hide Prime, Threshold, Ceil80;
    PrimeThresholds(index);
    ThresholdExactIff(Prime(index));
    if index > 0 { PrimeThresholds(index - 1); }
  }

  lemma LessOne<K, V>(m: map<K, V>, k: K)
    requires k in m
    ensures |m - {k}| == |m| - 1
  {
    assert (m - {k}).Keys == m.Keys - {k};
  }

  lemma OneMore<K, V>(m: map<K, V>, k: K, v: V)
    ensures |m[k := v]| == |m| + if k in m then 0 else 1
  {
    assert m[k := v].Keys == m.Keys + {k};
  }

  /** The index computation of _getPositionOfKey. */
  method SlotOf(h: int, size: nat) returns (i: nat)
    requires size > 0
    ensures i == Slot(h, size)
  {
    var a := h;
    if a < 0 { a := -a; }
    i := a % size;
  }

  /** The walk along a chain in _getPositionOfKey. */
  method FindKey<K(!new, ==), V(!new)>(chain: seq<Entry<K, V>>, k: K) returns (j: nat)
    ensures Position(chain, k, j)
  {
    j := 0;
    while j < |chain| && chain[j].key != k
      invariant j <= |chain| && forall x :: 0 <= x < j ==> chain[x].key != k
    {
      j := j + 1;
    }
  }

  // ----- the iterator

  /** The entries in the order of the table: chain after chain. */
  function Flat<K, V>(b: Buckets<K, V>, i: nat): seq<Entry<K, V>>
    requires i <= |b|
    decreases |b| - i
  {
    if i == |b| then [] else b[i] + Flat(b, i + 1)
  }

  /** jf_hashtable_iterator_t: the bucket and the place in its chain, or None at the end. */
  datatype Cursor = Cursor(pos: nat, at: nat)

  /** What is still to come, the current entry included. */
  ghost function Ahead<K, V>(b: Buckets<K, V>, c: Option<Cursor>): seq<Entry<K, V>> {
    match c
    case None => []
    case Some(x) => if x.pos < |b| && x.at <= |b[x.pos]| then b[x.pos][x.at..] + Flat(b, x.pos + 1) else []
  }

  ghost predicate CursorOk<K, V>(b: Buckets<K, V>, c: Option<Cursor>) {
    c.Some? ==> c.value.pos < |b| && c.value.at < |b[c.value.pos]|
  }

  /** The search for the next bucket that is not empty. */
  method NextBucket<K, V>(b: Buckets<K, V>, from: nat) returns (c: Option<Cursor>)
    requires from <= |b|
    ensures CursorOk(b, c) && Ahead(b, c) == Flat(b, from)
  {
    var i := from;
    while i < |b|
      invariant from <= i <= |b| && Flat(b, from) == Flat(b, i)
    {
      if b[i] != [] { return Some(Cursor(i, 0)); }
      i := i + 1;
    }
    c := None;
  }

  /** jf_hashtable_setupIterator */
  method SetupIterator<K, V>(b: Buckets<K, V>) returns (c: Option<Cursor>)
    ensures CursorOk(b, c) && Ahead(b, c) == Flat(b, 0)
  {
    c := NextBucket(b, 0);
  }

  /** jf_hashtable_incrementIterator: exactly the current entry is passed. */
  method IncrementIterator<K, V>(b: Buckets<K, V>, c: Cursor) returns (next: Option<Cursor>)
    requires CursorOk(b, Some(c))
    ensures CursorOk(b, next) && Ahead(b, Some(c)) == [b[c.pos][c.at]] + Ahead(b, next)
  {
    hide Flat;
    ghost var rest := Flat(b, c.pos + 1);
    StepAlong(b[c.pos], c.at, rest);
    if c.at + 1 < |b[c.pos]| {
      next := Some(c.(at := c.at + 1));
    } else {
      next := NextBucket(b, c.pos + 1);
    }
  }

  lemma StepAlong<K, V>(chain: seq<Entry<K, V>>, at: nat, rest: seq<Entry<K, V>>)
    requires at < |chain|
    ensures chain[at..] + rest == [chain[at]] + (chain[at + 1..] + rest)
    ensures at + 1 == |chain| ==> chain[at + 1..] + rest == rest
  {
  }

  /** The entries an iteration from start to end meets, in order. */
  method Iterate<K, V>(b: Buckets<K, V>) returns (met: seq<Entry<K, V>>)
    ensures met == Flat(b, 0)
  {
    met := [];
    var c := SetupIterator(b);
    while c.Some?
      invariant CursorOk(b, c) && met + Ahead(b, c) == Flat(b, 0)
      decreases |Ahead(b, c)|
    {
      met := met + [b[c.value.pos][c.value.at]];
      c := IncrementIterator(b, c.value);
    }
  }

  lemma {:induction false} FlatSize<K(!new), V(!new)>(b: Buckets<K, V>, i: nat)
    requires i <= |b|
    ensures |Flat(b, i)| == Total(b, |b|) - Total(b, i)
    decreases |b| - i
  {
    if i < |b| { FlatSize(b, i + 1); }
  }

  lemma {:induction false} FlatHas<K(!new), V(!new)>(hash: K -> int, b: Buckets<K, V>, m: map<K, V>, i: nat)
    requires Holds(hash, b, m) && i <= |b|
    ensures forall e :: e in Flat(b, i) <==> e.key in m && m[e.key] == e.value && Slot(hash(e.key), |b|) >= i
    decreases |b| - i
  {
    hide Slot;
    if i < |b| {
      FlatHas(hash, b, m, i + 1);
      assert ChainHolds(hash, |b|, i, b[i], m);
      forall e ensures e in b[i] <==> e.key in m && m[e.key] == e.value && Slot(hash(e.key), |b|) == i {
        if e.key in m && m[e.key] == e.value && Slot(hash(e.key), |b|) == i {
          var j :| 0 <= j < |b[i]| && b[i][j].key == e.key;
          assert b[i][j] == e;
        }
      }
    }
  }

  lemma {:induction false} FlatKeyed<K(!new), V(!new)>(hash: K -> int, b: Buckets<K, V>, m: map<K, V>, i: nat)
    requires Holds(hash, b, m) && i <= |b|
    ensures Keyed(Flat(b, i))
    decreases |b| - i
  {
    hide Slot;
    if i < |b| {
      FlatKeyed(hash, b, m, i + 1);
      FlatHas(hash, b, m, i + 1);
      assert ChainHolds(hash, |b|, i, b[i], m);
      JoinKeyed(b[i], Flat(b, i + 1), k => Slot(hash(k), |b|), i);
    }
  }

  lemma JoinKeyed<K(!new), V(!new)>(a: seq<Entry<K, V>>, c: seq<Entry<K, V>>, slot: K -> nat, i: nat)
    requires Keyed(a) && Keyed(c) && (forall j :: 0 <= j < |a| ==> slot(a[j].key) == i) && (forall e :: e in c ==> slot(e.key) > i)
    ensures Keyed(a + c)
  {
    assert forall j :: 0 <= j < |c| ==> c[j] in c;
  }

  /** An iteration meets every entry of the map and nothing else, no key twice, as many entries as the chains hold. */
  lemma IterationIsExact<K(!new), V(!new)>(hash: K -> int, b: Buckets<K, V>, m: map<K, V>)
    requires Holds(hash, b, m)
    ensures forall e :: e in Flat(b, 0) <==> e.key in m && m[e.key] == e.value
    ensures |Flat(b, 0)| == Total(b, |b|) && Keyed(Flat(b, 0))
  {
    hide Slot, Holds;
    HoldsSome(hash, b, m);
    FlatKeyed(hash, b, m, 0);
    FlatHas(hash, b, m, 0);
    FlatSize(b, 0);
    assert forall e: Entry<K, V> :: Slot(hash(e.key), |b|) >= 0;
  }
}
