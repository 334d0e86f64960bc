/** Aligned power-of-two blocks that partition a zone of 2^top pages, and the index arithmetic of buddies (jiukun/buddy.c). */
module BuddyBlocks {
  import opened Bits

  ghost predicate Aligned(p: nat, k: nat) {
    p % Pow2(k) == 0
  }

  /** _getBuddyIndex */
  function BuddyIndex(p: nat, k: nat): nat {
    BitXor(p, Pow2(k))
  }

  /** blocks maps the first page of every block to its order; own maps every page to the first page of its block. */
  ghost predicate Partition(own: seq<nat>, blocks: map<nat, nat>, top: nat) {
    && |own| == Pow2(top)
    && (forall h :: h in blocks ==> BlockOk(own, blocks, top, h))
    && (forall p :: 0 <= p < |own| ==> own[p] in blocks && own[p] <= p < own[p] + Pow2(blocks[own[p]]))
  }

  ghost predicate BlockOk(own: seq<nat>, blocks: map<nat, nat>, top: nat, h: nat)
    requires h in blocks
  {
    && blocks[h] <= top && Aligned(h, blocks[h]) && h + Pow2(blocks[h]) <= |own|
    && forall p :: h <= p < h + Pow2(blocks[h]) ==> own[p] == h
  }

  // ----- multiples of powers of two

  lemma AlignedQuotient(p: nat, k: nat) returns (q: nat)
    requires Aligned(p, k)
    ensures p == q * Pow2(k)
  {
    DivModDefinition(p, Pow2(k));
    q := p / Pow2(k);
  }

  lemma AlignedProduct(q: nat, k: nat)
    ensures Aligned(q * Pow2(k), k)
  {
    MultipleMod(q, Pow2(k));
  }

  lemma AlignedLower(p: nat, k: nat, j: nat)
    requires Aligned(p, k) && j <= k
    ensures Aligned(p, j)
  {
    hide Aligned;
    var q := AlignedQuotient(p, k);
    Pow2Add(k - j, j);
    MulAssoc(q, Pow2(k - j), Pow2(j));
    AlignedProduct(q * Pow2(k - j), j);
  }

  lemma AlignedSum(p: nat, k: nat)
    requires Aligned(p, k)
    ensures Aligned(p + Pow2(k), k)
    ensures p >= Pow2(k) ==> Aligned(p - Pow2(k), k)
  {
    hide Aligned;
    var q := AlignedQuotient(p, k);
    Distribute(q, 1, Pow2(k));
    AlignedProduct(q + 1, k);
    if p >= Pow2(k) {
      if q < 1 { MulMono(q, 0, Pow2(k)); }
      AlignedProduct(q - 1, k);
    }
  }

  /** Between two multiples lies a whole step. */
  lemma AlignedGap(a: nat, b: nat, k: nat)
    requires Aligned(a, k) && Aligned(b, k) && a < b
    ensures a + Pow2(k) <= b
  {
    hide Aligned;
    var x := AlignedQuotient(a, k);
    var y := AlignedQuotient(b, k);
    if y <= x { MulMono(y, x, Pow2(k)); }
    MulMono(x + 1, y, Pow2(k));
    Distribute(x, 1, Pow2(k));
  }

  // ----- buddies

  lemma {:induction false} XorBit(p: nat, k: nat)
    ensures BitXor(p, Pow2(k)) == if ShiftR(p, k) % 2 == 0 then p + Pow2(k) else p - Pow2(k)
    ensures ShiftR(p, k) % 2 == 1 ==> p >= Pow2(k)
    decreases k
  {
    hide BitXor;
    if k == 0 {
      XorZero(p / 2);
      XorStep(p, 1);
    } else {
      XorBit(p / 2, k - 1);
      XorStep(p, Pow2(k));
    }
  }

  lemma XorStep(p: nat, y: nat)
    requires y > 0
    ensures BitXor(p, y) == 2 * BitXor(p / 2, y / 2) + if p % 2 != y % 2 then 1 else 0
  {
  }

  lemma {:induction false} XorZero(p: nat)
    ensures BitXor(p, 0) == p
  {
    if p > 0 { XorZero(p / 2); }
  }

  lemma BuddyOfMultiple(q: nat, k: nat)
    ensures q % 2 == 0 ==> BuddyIndex(q * Pow2(k), k) == (q + 1) * Pow2(k)
    ensures q % 2 == 1 ==> BuddyIndex(q * Pow2(k), k) == (q - 1) * Pow2(k)
  {
    hide BitXor, Pow2, ShiftR;
    XorBit(q * Pow2(k), k);
    ShiftRIsDiv(q * Pow2(k), k, q, 0);
    Distribute(q, 1, Pow2(k));
  }

  lemma LowerOfPair(q: nat, k: nat)
    requires q % 2 == 0
    ensures Aligned(q * Pow2(k), k + 1)
  {
    DoubledProduct(q / 2, Pow2(k));
    MulAssoc(2, q / 2, Pow2(k));
    AlignedProduct(q / 2, k + 1);
  }

  /** The buddy of a block of order k is its neighbour inside a block of order k + 1, and the block is its buddy's buddy. */
  lemma BuddyPair(p: nat, k: nat)
    requires Aligned(p, k)
    ensures BuddyIndex(p, k) == p + Pow2(k) || (p >= Pow2(k) && BuddyIndex(p, k) == p - Pow2(k))
    ensures BuddyIndex(p, k) > p ==> Aligned(p, k + 1)
    ensures BuddyIndex(p, k) < p ==> Aligned(BuddyIndex(p, k), k + 1)
    ensures Aligned(BuddyIndex(p, k), k) && BuddyIndex(BuddyIndex(p, k), k) == p
  {
    hide Aligned, BuddyIndex, Pow2;
    var q := AlignedQuotient(p, k);
    BuddyOfMultiple(q, k);
    Distribute(q, 1, Pow2(k));
    if q % 2 == 0 {
      BuddyOfMultiple(q + 1, k);
      LowerOfPair(q, k);
      AlignedProduct(q + 1, k);
    } else {
      BuddyOfMultiple(q - 1, k);
      LowerOfPair(q - 1, k);
      AlignedProduct(q - 1, k);
    }
  }

  // ----- the partition

  /** The head page of a block's buddy is itself the head of a block, of no higher order. */
  lemma BuddyIsHead(own: seq<nat>, blocks: map<nat, nat>, top: nat, p: nat)
    requires Partition(own, blocks, top) && p in blocks && blocks[p] < top
    ensures var b := BuddyIndex(p, blocks[p]); b < |own| && b in blocks && blocks[b] <= blocks[p] && b != p
  {
    var k := blocks[p];
    var b := BuddyIndex(p, k);
    assert BlockOk(own, blocks, top, p);
    BuddyPair(p, k);
    BuddyInZone(p, k, top);
    var h := own[b];
    var j := blocks[h];
    assert BlockOk(own, blocks, top, h);
    assert own[p] == p;
    hide Aligned, BuddyIndex, Pow2;
    if j > k {
      SharedParent(p, b, k, h, j);
      assert false;
    }
    AlignedLower(b, k, j);
    if h != b { AlignedGap(h, b, j); }
  }

  lemma BuddyInZone(p: nat, k: nat, top: nat)
    requires Aligned(p, k) && p + Pow2(k) <= Pow2(top) && k < top
    ensures BuddyIndex(p, k) + Pow2(k) <= Pow2(top)
  {
    hide Aligned, BuddyIndex;
    BuddyPair(p, k);
    if BuddyIndex(p, k) > p {
      Pow2Add(top - k - 1, k + 1);
      AlignedProduct(Pow2(top - k - 1), k + 1);
      if p == Pow2(top) {} else { AlignedGap(p, Pow2(top), k + 1); }
    }
  }

  /** A larger block that contains one of two buddies contains the other. */
  lemma SharedParent(p: nat, b: nat, k: nat, h: nat, j: nat)
    requires Aligned(p, k) && b == BuddyIndex(p, k) && j > k && Aligned(h, j) && h <= b < h + Pow2(j)
    ensures h <= p < h + Pow2(j)
  {
    hide Aligned, BuddyIndex;
    BuddyPair(p, k);
    var lo := if b < p then b else p;
    AlignedLower(h, j, k + 1);
    Pow2Add(j - k - 1, k + 1);
    AlignedProduct(Pow2(j - k - 1), k + 1);
    AlignedSum(h, j);
    AlignedLower(h + Pow2(j), j, k + 1);
    if lo < h { AlignedGap(lo, h, k + 1); }
    AlignedGap(lo, h + Pow2(j), k + 1);
  }

  /** Pages m up to end now belong to the block at m. */
  ghost function Reown(own: seq<nat>, m: nat, end: nat): (own': seq<nat>)
    ensures |own'| == |own| && forall p :: 0 <= p < |own| ==> own'[p] == if m <= p < end then m else own[p]
  {
    seq(|own|, p requires 0 <= p < |own| => if m <= p < end then m else own[p])
  }

  lemma SplitPoint(own: seq<nat>, blocks: map<nat, nat>, top: nat, h: nat)
    requires Partition(own, blocks, top) && h in blocks && blocks[h] > 0
    ensures var k, m := blocks[h] - 1, h + Pow2(blocks[h] - 1);
            m !in blocks && m + Pow2(k) == h + Pow2(k + 1) <= |own| && Aligned(h, k) && Aligned(m, k) && k < top
  {
    hide Aligned;
    var k := blocks[h] - 1;
    assert BlockOk(own, blocks, top, h);
    assert own[h + Pow2(k)] == h;
    HeadsOwnThemselves(own, blocks, top);
    AlignedLower(h, k + 1, k);
    AlignedSum(h, k);
  }

  /** Splitting a block into two halves keeps the partition. */
  lemma SplitKeeps(own: seq<nat>, blocks: map<nat, nat>, top: nat, h: nat)
    requires Partition(own, blocks, top) && h in blocks && blocks[h] > 0
    ensures var k, m := blocks[h] - 1, h + Pow2(blocks[h] - 1);
            m !in blocks && m + Pow2(k) <= |own| &&
            Partition(Reown(own, m, h + Pow2(blocks[h])), blocks[h := k][m := k], top)
  {
    hide Aligned, Pow2;
    var k := blocks[h] - 1;
    var m := h + Pow2(k);
    SplitPoint(own, blocks, top, h);
    assert BlockOk(own, blocks, top, h);
    var own', blocks' := Reown(own, m, h + Pow2(k + 1)), blocks[h := k][m := k];
    forall g | g in blocks' ensures BlockOk(own', blocks', top, g) {
      if g != h && g != m {
        assert BlockOk(own, blocks, top, g);
        OtherBlockApart(own, blocks, top, h, g);
      }
    }
  }

  lemma HeadsOwnThemselves(own: seq<nat>, blocks: map<nat, nat>, top: nat)
    requires Partition(own, blocks, top)
    ensures forall h :: h in blocks ==> h < |own| && own[h] == h
  {
    forall h | h in blocks ensures h < |own| && own[h] == h { assert BlockOk(own, blocks, top, h); }
  }

  lemma OtherBlockApart(own: seq<nat>, blocks: map<nat, nat>, top: nat, h: nat, g: nat)
    requires Partition(own, blocks, top) && h in blocks && g in blocks && g != h
    ensures g + Pow2(blocks[g]) <= h || h + Pow2(blocks[h]) <= g
  {
    assert BlockOk(own, blocks, top, h) && BlockOk(own, blocks, top, g);
    assert own[h] == h && own[g] == g;
  }

  /** Merging a block with its buddy keeps the partition. */
  lemma MergeKeeps(own: seq<nat>, blocks: map<nat, nat>, top: nat, lo: nat)
    requires Partition(own, blocks, top) && lo in blocks && blocks[lo] < top && Aligned(lo, blocks[lo] + 1)
    requires var hi := lo + Pow2(blocks[lo]); hi in blocks && blocks[hi] == blocks[lo]
    ensures var k, hi := blocks[lo], lo + Pow2(blocks[lo]);
            Partition(Reown(own, lo, hi + Pow2(k)), (blocks - {hi})[lo := k + 1], top)
  {
    var k := blocks[lo];
    var hi := lo + Pow2(k);
    assert BlockOk(own, blocks, top, lo) && BlockOk(own, blocks, top, hi);
    var own', blocks' := Reown(own, lo, hi + Pow2(k)), (blocks - {hi})[lo := k + 1];
    hide Aligned;
    forall g | g in blocks' ensures BlockOk(own', blocks', top, g) {
      if g != lo {
        assert BlockOk(own, blocks, top, g);
        OtherBlockApart(own, blocks, top, lo, g);
        OtherBlockApart(own, blocks, top, hi, g);
      }
    }
    forall p | 0 <= p < |own'| ensures own'[p] in blocks' && own'[p] <= p < own'[p] + Pow2(blocks'[own'[p]]) {
      if own[p] == hi {
        assert lo <= p < hi + Pow2(k);
      }
    }
  }

}
