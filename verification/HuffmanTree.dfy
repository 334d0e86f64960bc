/** Huffman trees: what the greedy merge of encode/huffman.c keeps true, and why its result is optimal and shallow.
    ws[s] is the frequency of symbol s; a symbol of frequency 0 gets no leaf. */
module HuffmanTree {
  import opened Bits
  import opened CodeLengths
  import opened PrefixCode

  datatype Tree = Leaf(sym: nat) | Node(left: Tree, right: Tree)

  ghost function Syms(t: Tree): set<nat> {
    match t
    case Leaf(s) => {s}
    case Node(l, r) => Syms(l) + Syms(r)
  }

  /** No symbol has two leaves. */
  ghost predicate NoDup(t: Tree) {
    match t
    case Leaf(_) => true
    case Node(l, r) => NoDup(l) && NoDup(r) && Syms(l) !! Syms(r)
  }

  function Weight(ws: seq<nat>, t: Tree): nat {
    match t
    case Leaf(s) => if s < |ws| then ws[s] else 0
    case Node(l, r) => Weight(ws, l) + Weight(ws, r)
  }

  function Height(t: Tree): nat {
    match t
    case Leaf(_) => 0
    case Node(l, r) => 1 + if Height(l) >= Height(r) then Height(l) else Height(r)
  }

  /** The sum of the weights of all inner nodes. */
  ghost function MergeCost(ws: seq<nat>, t: Tree): nat {
    match t
    case Leaf(_) => 0
    case Node(l, r) => MergeCost(ws, l) + MergeCost(ws, r) + Weight(ws, t)
  }

  /** No grandchild outweighs its parent's sibling. */
  ghost predicate Shaped(ws: seq<nat>, t: Tree) {
    match t
    case Leaf(s) => s < |ws| && ws[s] > 0
    case Node(l, r) => Shaped(ws, l) && Shaped(ws, r) && Outweighs(ws, l, r) && Outweighs(ws, r, l)
  }

  /** t outweighs both children of u. */
  ghost predicate Outweighs(ws: seq<nat>, t: Tree, u: Tree) {
    u.Node? ==> Weight(ws, t) >= Weight(ws, u.left) && Weight(ws, t) >= Weight(ws, u.right)
  }

  // ----- the forest that the merge loop works on, one slot per symbol

  datatype Slot = Empty | Root(tree: Tree)

  ghost function SlotWeight(ws: seq<nat>, s: Slot): nat {
    if s.Root? then Weight(ws, s.tree) else 0
  }

  ghost function Weights(ws: seq<nat>, slots: seq<Slot>): (vs: seq<nat>)
    ensures |vs| == |slots| && forall i :: 0 <= i < |slots| ==> vs[i] == SlotWeight(ws, slots[i])
  {
    seq(|slots|, i requires 0 <= i < |slots| => SlotWeight(ws, slots[i]))
  }

  ghost function TotalMergeCost(ws: seq<nat>, slots: seq<Slot>, n: nat): nat
    requires n <= |slots|
  {
    if n == 0 then 0
    else TotalMergeCost(ws, slots, n - 1) + if slots[n - 1].Root? then MergeCost(ws, slots[n - 1].tree) else 0
  }

  /** Every symbol of positive frequency has exactly one leaf in the forest. */
  ghost predicate Partition(ws: seq<nat>, slots: seq<Slot>) {
    && |slots| == |ws|
    && (forall i :: 0 <= i < |slots| && slots[i].Root? ==> NoDup(slots[i].tree))
    && (forall i, j :: 0 <= i < j < |slots| && slots[i].Root? && slots[j].Root?
          ==> Syms(slots[i].tree) !! Syms(slots[j].tree))
    && (forall s :: 0 <= s < |ws| && ws[s] > 0 ==> InForest(slots, s))
  }

  ghost predicate InForest(slots: seq<Slot>, s: nat) {
    exists i :: 0 <= i < |slots| && slots[i].Root? && s in Syms(slots[i].tree)
  }

  ghost predicate ForestShaped(ws: seq<nat>, slots: seq<Slot>) {
    && (forall i :: 0 <= i < |slots| && slots[i].Root? ==> Shaped(ws, slots[i].tree))
    && (forall i, j :: 0 <= i < |slots| && 0 <= j < |slots| && i != j && slots[i].Root? && slots[j].Root?
          ==> Outweighs(ws, slots[i].tree, slots[j].tree))
  }

  /** Some lengths for the symbols vs, on top of an outlay of `paid`, cost at most c. */
  ghost predicate Affordable(vs: seq<nat>, paid: nat, c: nat) {
    exists ls, top :: Feasible(vs, ls, top) && Cost(vs, ls, |vs|) + paid <= c
  }

  /** Whatever lengths the symbols get, the merges done so far have cost no more than they had to. */
  ghost predicate LowerBound(ws: seq<nat>, slots: seq<Slot>) {
    |ws| == |slots| &&
    forall ls, top :: Feasible(ws, ls, top)
      ==> Affordable(Weights(ws, slots), TotalMergeCost(ws, slots, |slots|), Cost(ws, ls, |ws|))
  }

  ghost predicate GreedyForest(ws: seq<nat>, slots: seq<Slot>) {
    Partition(ws, slots) && ForestShaped(ws, slots) && LowerBound(ws, slots)
  }

  /** One leaf per symbol of positive frequency. */
  function Leaves(ws: seq<nat>): (slots: seq<Slot>)
    ensures |slots| == |ws|
    ensures forall i :: 0 <= i < |ws| ==> slots[i] == if ws[i] > 0 then Root(Leaf(i)) else Empty
  {
    seq(|ws|, i requires 0 <= i < |ws| => if ws[i] > 0 then Root(Leaf(i)) else Empty)
  }

  function MergeSlots(slots: seq<Slot>, a: nat, b: nat): seq<Slot>
    requires a < |slots| && b < |slots| && slots[a].Root? && slots[b].Root?
  {
    slots[a := Root(Node(slots[a].tree, slots[b].tree))][b := Empty]
  }

  // ----- the loop invariant, established and kept

  lemma {:induction false} LeavesCostNothing(ws: seq<nat>, n: nat)
    requires n <= |ws|
    ensures TotalMergeCost(ws, Leaves(ws), n) == 0
  {
    if n > 0 { LeavesCostNothing(ws, n - 1); }
  }

  lemma LeavesBound(ws: seq<nat>)
    ensures LowerBound(ws, Leaves(ws))
  {
    var slots := Leaves(ws);
    LeavesCostNothing(ws, |ws|);
    assert Weights(ws, slots) == ws;
    forall ls, top | Feasible(ws, ls, top)
      ensures Affordable(Weights(ws, slots), TotalMergeCost(ws, slots, |slots|), Cost(ws, ls, |ws|))
    {
      assert Feasible(Weights(ws, slots), ls, top);
    }
  }

  lemma LeavesPartition(ws: seq<nat>)
    ensures Partition(ws, Leaves(ws))
  {
    forall s | 0 <= s < |ws| && ws[s] > 0 ensures InForest(Leaves(ws), s) {
      assert s in Syms(Leaves(ws)[s].tree);
    }
  }

  lemma LeavesAreGreedy(ws: seq<nat>)
    ensures GreedyForest(ws, Leaves(ws))
  {
    LeavesPartition(ws);
    LeavesBound(ws);
  }

  /** a and b are the two slots the merge loop picks. */
  ghost predicate Picked(ws: seq<nat>, slots: seq<Slot>, a: nat, b: nat) {
    && a < |slots| && b < |slots| && a != b && slots[a].Root? && slots[b].Root?
    && (forall i :: 0 <= i < |slots| && slots[i].Root? ==> Weight(ws, slots[a].tree) <= Weight(ws, slots[i].tree))
    && (forall i :: 0 <= i < |slots| && i != a && slots[i].Root? ==> Weight(ws, slots[b].tree) <= Weight(ws, slots[i].tree))
  }

  lemma MergeKeepsPartition(ws: seq<nat>, slots: seq<Slot>, a: nat, b: nat)
    requires Partition(ws, slots) && a < |slots| && b < |slots| && a != b && slots[a].Root? && slots[b].Root?
    ensures Partition(ws, MergeSlots(slots, a, b))
  {
    var slots' := MergeSlots(slots, a, b);
    assert Syms(slots'[a].tree) == Syms(slots[a].tree) + Syms(slots[b].tree);
    forall s | 0 <= s < |ws| && ws[s] > 0 ensures InForest(slots', s) {
      assert InForest(slots, s);
      var i :| 0 <= i < |slots| && slots[i].Root? && s in Syms(slots[i].tree);
      var j := if i == b then a else i;
      assert slots'[j].Root? && s in Syms(slots'[j].tree);
    }
  }

  lemma MergeKeepsShape(ws: seq<nat>, slots: seq<Slot>, a: nat, b: nat)
    requires ForestShaped(ws, slots) && Picked(ws, slots, a, b)
    ensures ForestShaped(ws, MergeSlots(slots, a, b))
  {
    var slots' := MergeSlots(slots, a, b);
    forall i, j | 0 <= i < |slots'| && 0 <= j < |slots'| && i != j && slots'[i].Root? && slots'[j].Root?
      ensures Outweighs(ws, slots'[i].tree, slots'[j].tree)
    {
      if i == a {
        assert Outweighs(ws, slots[a].tree, slots[j].tree);
      }
    }
  }

  lemma {:induction false} TotalAfterMerge(ws: seq<nat>, slots: seq<Slot>, a: nat, b: nat, n: nat)
    requires n <= |slots| && a < |slots| && b < |slots| && a != b && slots[a].Root? && slots[b].Root?
    ensures TotalMergeCost(ws, MergeSlots(slots, a, b), n) + (if b < n then MergeCost(ws, slots[b].tree) else 0)
         == TotalMergeCost(ws, slots, n)
            + (if a < n then MergeCost(ws, slots[b].tree) + Weight(ws, slots[a].tree) + Weight(ws, slots[b].tree) else 0)
  {
    if n > 0 { TotalAfterMerge(ws, slots, a, b, n - 1); }
  }

  lemma {:induction false} PositiveWeight(ws: seq<nat>, t: Tree)
    requires Shaped(ws, t)
    ensures Weight(ws, t) > 0
  {
    if t.Node? { PositiveWeight(ws, t.left); }
  }

  lemma PickedAreRarest(ws: seq<nat>, slots: seq<Slot>, a: nat, b: nat)
    requires ForestShaped(ws, slots) && Picked(ws, slots, a, b)
    ensures Rarest(Weights(ws, slots), a, b)
    ensures Weights(ws, MergeSlots(slots, a, b)) == Merged(Weights(ws, slots), a, b)
  {
    PositiveWeight(ws, slots[a].tree);
    PositiveWeight(ws, slots[b].tree);
  }

  lemma MergeKeepsBound(ws: seq<nat>, slots: seq<Slot>, a: nat, b: nat)
    requires LowerBound(ws, slots) && ForestShaped(ws, slots) && Picked(ws, slots, a, b)
    ensures LowerBound(ws, MergeSlots(slots, a, b))
  {
    var slots' := MergeSlots(slots, a, b);
    var vs, vs' := Weights(ws, slots), Weights(ws, slots');
    var paid, paid' := TotalMergeCost(ws, slots, |slots|), TotalMergeCost(ws, slots', |slots|);
    PickedAreRarest(ws, slots, a, b);
    TotalAfterMerge(ws, slots, a, b, |slots|);
    forall ls, top | Feasible(ws, ls, top) ensures Affordable(vs', paid', Cost(ws, ls, |ws|)) {
      assert Affordable(vs, paid, Cost(ws, ls, |ws|));
      var ls1, top1 :| Feasible(vs, ls1, top1) && Cost(vs, ls1, |vs|) + paid <= Cost(ws, ls, |ws|);
      var ls2, top2 := MergeRarest(vs, ls1, top1, a, b);
      assert Feasible(vs', ls2, top2);
    }
  }

  /** Merging the two lightest trees keeps everything the loop relies on. */
  lemma MergeStaysGreedy(ws: seq<nat>, slots: seq<Slot>, a: nat, b: nat)
    requires GreedyForest(ws, slots) && Picked(ws, slots, a, b)
    ensures GreedyForest(ws, MergeSlots(slots, a, b))
  {
    MergeKeepsPartition(ws, slots, a, b);
    MergeKeepsShape(ws, slots, a, b);
    MergeKeepsBound(ws, slots, a, b);
  }

  // ----- what the last tree is

  ghost function Coded(ws: seq<nat>): set<nat> {
    set s | 0 <= s < |ws| && ws[s] > 0
  }

  /** t is a tree over exactly the coded symbols, and no feasible code lengths cost less. */
  ghost predicate Huffman(ws: seq<nat>, t: Tree) {
    && NoDup(t) && Syms(t) == Coded(ws) && Shaped(ws, t)
    && forall ls, top :: Feasible(ws, ls, top) ==> MergeCost(ws, t) <= Cost(ws, ls, |ws|)
  }

  lemma {:induction false} ShapedSyms(ws: seq<nat>, t: Tree)
    requires Shaped(ws, t)
    ensures Syms(t) <= Coded(ws)
  {
    if t.Node? {
      ShapedSyms(ws, t.left);
      ShapedSyms(ws, t.right);
    }
  }

  lemma {:induction false} TotalOfOne(ws: seq<nat>, slots: seq<Slot>, a: nat, n: nat)
    requires n <= |slots| && a < |slots| && slots[a].Root?
    requires forall i :: 0 <= i < |slots| && i != a ==> slots[i].Empty?
    ensures TotalMergeCost(ws, slots, n) == if a < n then MergeCost(ws, slots[a].tree) else 0
  {
    if n > 0 { TotalOfOne(ws, slots, a, n - 1); }
  }

  /** When one tree is left, it is a Huffman tree. */
  lemma LastTreeIsHuffman(ws: seq<nat>, slots: seq<Slot>, a: nat)
    requires GreedyForest(ws, slots) && a < |slots| && slots[a].Root?
    requires forall i :: 0 <= i < |slots| && i != a ==> slots[i].Empty?
    ensures Huffman(ws, slots[a].tree)
  {
    var t := slots[a].tree;
    ShapedSyms(ws, t);
    forall s | s in Coded(ws) ensures s in Syms(t) {
      assert InForest(slots, s);
    }
    TotalOfOne(ws, slots, a, |slots|);
    forall ls, top | Feasible(ws, ls, top) ensures MergeCost(ws, t) <= Cost(ws, ls, |ws|) {
      assert Affordable(Weights(ws, slots), MergeCost(ws, t), Cost(ws, ls, |ws|));
    }
  }

  // ----- the code a tree defines

  /** The path from the root to the leaf of symbol s: left is 0, right is 1. */
  ghost function Path(t: Tree, s: nat): Word
    requires s in Syms(t)
  {
    match t
    case Leaf(_) => []
    case Node(l, r) => if s in Syms(l) then [false] + Path(l, s) else [true] + Path(r, s)
  }

  /** The code of an alphabet of n symbols. */
  ghost function TreeCode(t: Tree, n: nat): (code: seq<Word>)
    ensures |code| == n && forall s :: 0 <= s < n ==> code[s] == if s in Syms(t) then Path(t, s) else []
  {
    seq(n, s requires 0 <= s < n => if s in Syms(t) then Path(t, s) else [])
  }

  lemma {:induction false} PathsPrefixFree(t: Tree, s: nat, s': nat)
    requires s in Syms(t) && s' in Syms(t) && s != s'
    ensures !(Path(t, s) <= Path(t, s'))
  {
    match t
    case Leaf(_) =>
    case Node(l, r) =>
      var p, p' := Path(t, s), Path(t, s');
      if s in Syms(l) && s' in Syms(l) {
        PathsPrefixFree(l, s, s');
        assert p[1..] == Path(l, s) && p'[1..] == Path(l, s');
      } else if s !in Syms(l) && s' !in Syms(l) {
        PathsPrefixFree(r, s, s');
        assert p[1..] == Path(r, s) && p'[1..] == Path(r, s');
      } else {
        assert p[0] != p'[0];
      }
  }

  lemma {:induction false} PathWithinHeight(t: Tree, s: nat)
    requires s in Syms(t)
    ensures |Path(t, s)| <= Height(t)
  {
    if t.Node? {
      if s in Syms(t.left) { PathWithinHeight(t.left, s); } else { PathWithinHeight(t.right, s); }
    }
  }

  /** Frequency times path length, summed over the symbols of t below n. */
  ghost function PathCost(ws: seq<nat>, t: Tree, n: nat): nat
    requires n <= |ws|
  {
    if n == 0 then 0 else PathCost(ws, t, n - 1) + if n - 1 in Syms(t) then ws[n - 1] * |Path(t, n - 1)| else 0
  }

  ghost function SymWeight(ws: seq<nat>, ss: set<nat>, n: nat): nat
    requires n <= |ws|
  {
    if n == 0 then 0 else SymWeight(ws, ss, n - 1) + if n - 1 in ss then ws[n - 1] else 0
  }

  lemma {:induction false} SymWeightUnion(ws: seq<nat>, ss: set<nat>, ss': set<nat>, n: nat)
    requires n <= |ws| && ss !! ss'
    ensures SymWeight(ws, ss + ss', n) == SymWeight(ws, ss, n) + SymWeight(ws, ss', n)
  {
    if n > 0 { SymWeightUnion(ws, ss, ss', n - 1); }
  }

  lemma {:induction false} SymWeightOne(ws: seq<nat>, s: nat, n: nat)
    requires n <= |ws|
    ensures SymWeight(ws, {s}, n) == if s < n then ws[s] else 0
  {
    if n > 0 { SymWeightOne(ws, s, n - 1); }
  }

  lemma {:induction false} WeightIsSum(ws: seq<nat>, t: Tree)
    requires NoDup(t)
    ensures Weight(ws, t) == SymWeight(ws, Syms(t), |ws|)
  {
    match t
    case Leaf(s) => SymWeightOne(ws, s, |ws|);
    case Node(l, r) =>
      WeightIsSum(ws, l);
      WeightIsSum(ws, r);
      SymWeightUnion(ws, Syms(l), Syms(r), |ws|);
  }

  lemma {:induction false} PathCostNode(ws: seq<nat>, t: Tree, n: nat)
    requires t.Node? && NoDup(t) && n <= |ws|
    ensures PathCost(ws, t, n) == PathCost(ws, t.left, n) + PathCost(ws, t.right, n) + SymWeight(ws, Syms(t), n)
  {
    if n > 0 {
      PathCostNode(ws, t, n - 1);
      var s := n - 1;
      if s in Syms(t.left) {
        OneLonger(ws[s], |Path(t.left, s)|);
      } else if s in Syms(t.right) {
        OneLonger(ws[s], |Path(t.right, s)|);
      }
    }
  }

  lemma OneLonger(w: int, l: int)
    ensures w * (1 + l) == w * l + w
  {
  }

  lemma {:induction false} PathCostIsMergeCost(ws: seq<nat>, t: Tree)
    requires NoDup(t)
    ensures PathCost(ws, t, |ws|) == MergeCost(ws, t)
  {
    match t
    case Leaf(s) => LeafPathCost(ws, s, |ws|);
    case Node(l, r) =>
      PathCostIsMergeCost(ws, l);
      PathCostIsMergeCost(ws, r);
      PathCostNode(ws, t, |ws|);
      WeightIsSum(ws, t);
  }

  lemma {:induction false} LeafPathCost(ws: seq<nat>, s: nat, n: nat)
    requires n <= |ws|
    ensures PathCost(ws, Leaf(s), n) == 0
  {
    if n > 0 { LeafPathCost(ws, s, n - 1); }
  }

  lemma {:induction false} CodeCost(ws: seq<nat>, t: Tree, ls: seq<nat>, n: nat)
    requires n <= |ws| == |ls|
    requires forall s :: 0 <= s < n ==> ls[s] == if s in Syms(t) then |Path(t, s)| else 0
    ensures Cost(ws, ls, n) == PathCost(ws, t, n)
  {
    if n > 0 { CodeCost(ws, t, ls, n - 1); }
  }

  /** The code of a Huffman tree is a prefix code. */
  lemma HuffmanPrefixFree(ws: seq<nat>, t: Tree)
    requires Huffman(ws, t)
    ensures PrefixFree(ws, TreeCode(t, |ws|))
  {
    forall i, j | 0 <= i < |ws| && 0 <= j < |ws| && i != j && ws[i] > 0 && ws[j] > 0
      ensures !(TreeCode(t, |ws|)[i] <= TreeCode(t, |ws|)[j])
    {
      assert i in Coded(ws) && j in Coded(ws);
      PathsPrefixFree(t, i, j);
    }
  }

  /** Among all prefix codes for the coded symbols, the code of a Huffman tree has the least total length. */
  lemma HuffmanOptimal(ws: seq<nat>, t: Tree, code: seq<Word>)
    requires Huffman(ws, t) && PrefixFree(ws, code)
    ensures Cost(ws, Lengths(TreeCode(t, |ws|)), |ws|) <= Cost(ws, Lengths(code), |ws|)
  {
    var top := LongestWord(code, |code|);
    KraftInequality(ws, code, top);
    CodeCost(ws, t, Lengths(TreeCode(t, |ws|)), |ws|);
    PathCostIsMergeCost(ws, t);
  }

  // ----- depth

  ghost function Fib(n: nat): nat {
    if n < 2 then n else Fib(n - 1) + Fib(n - 2)
  }

  /** Height h forces a total frequency of at least Fib(h + 2). */
  lemma {:induction false} HeavyIfDeep(ws: seq<nat>, t: Tree)
    requires Shaped(ws, t)
    ensures Weight(ws, t) >= Fib(Height(t) + 2)
    decreases t, 1
  {
    if t.Node? {
      if Height(t.left) >= Height(t.right) {
        HeavyIfDeep(ws, t.left);
        if t.left.Node? { HeavySibling(ws, t.left, t.right); } else { PositiveWeight(ws, t.right); }
      } else {
        HeavyIfDeep(ws, t.right);
        if t.right.Node? { HeavySibling(ws, t.right, t.left); }
      }
    }
  }

  /** The sibling of a deep tree is at least as heavy as its grandchildren. */
  lemma {:induction false} HeavySibling(ws: seq<nat>, deep: Tree, other: Tree)
    requires deep.Node? && Shaped(ws, deep) && Outweighs(ws, other, deep)
    ensures Weight(ws, other) >= Fib(Height(deep) + 1)
    decreases deep, 0
  {
    if Height(deep.left) >= Height(deep.right) { HeavyIfDeep(ws, deep.left); } else { HeavyIfDeep(ws, deep.right); }
  }

  lemma {:induction false} FibMono(a: nat, b: nat)
    requires a <= b
    ensures Fib(a) <= Fib(b)
    decreases b
  {
    if a < b { FibMono(a, b - 1); }
  }

  lemma FibAhead(k: nat)
    ensures Fib(k + 10) == 34 * Fib(k) + 55 * Fib(k + 1) && Fib(k + 11) == 55 * Fib(k) + 89 * Fib(k + 1)
  {
    assert Fib(k + 4) == 2 * Fib(k) + 3 * Fib(k + 1);
    assert Fib(k + 5) == 3 * Fib(k) + 5 * Fib(k + 1);
    assert Fib(k + 7) == 8 * Fib(k) + 13 * Fib(k + 1);
    assert Fib(k + 8) == 13 * Fib(k) + 21 * Fib(k + 1);
  }

  /** The 66th Fibonacci number. */
  const FIB66: nat := 27777890035288

  lemma Fib66()
    ensures Fib(66) == FIB66
  {
    FibAhead(0);
    FibAhead(10);
    FibAhead(20);
    FibAhead(30);
    FibAhead(40);
    FibAhead(50);
    assert Fib(62) == Fib(60) + Fib(61);
    assert Fib(64) == 2 * Fib(62) + Fib(61);
  }

  /** A total frequency below the 66th Fibonacci number leaves no leaf deeper than 63, so every code fits 8 bytes with a bit to spare. */
  lemma HuffmanFits(ws: seq<nat>, t: Tree)
    requires Huffman(ws, t) && SymWeight(ws, Coded(ws), |ws|) < FIB66
    ensures Height(t) <= 63
    ensures forall s :: s in Syms(t) ==> |Path(t, s)| <= 63
  {
    HeavyIfDeep(ws, t);
    WeightIsSum(ws, t);
    if Height(t) > 63 {
      FibMono(66, Height(t) + 2);
      Fib66();
    }
    forall s | s in Syms(t) ensures |Path(t, s)| <= 63 { PathWithinHeight(t, s); }
  }

  lemma {:induction false} SymWeightBound(ws: seq<nat>, ss: set<nat>, n: nat)
    requires n <= |ws| && forall s :: 0 <= s < n ==> ws[s] < 0x1_0000_0000
    ensures SymWeight(ws, ss, n) <= 0xFFFF_FFFF * n
  {
    if n > 0 { SymWeightBound(ws, ss, n - 1); }
  }

  /** Any alphabet of at most 256 symbols with 32-bit frequencies qualifies. */
  lemma ByteAlphabetFits(ws: seq<nat>)
    requires |ws| <= 256 && forall s :: 0 <= s < |ws| ==> ws[s] < 0x1_0000_0000
    ensures SymWeight(ws, Coded(ws), |ws|) < FIB66
  {
    SymWeightBound(ws, Coded(ws), |ws|);
  }
}
