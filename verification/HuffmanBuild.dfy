/** Building the Huffman tree in the node pool (encode/huffman.c). A node pointer is its index in the pool. */
module HuffmanBuild {
  import opened Bits
  import opened CodeLengths
  import opened PrefixCode
  import opened HuffmanTree

  const NONE: int := -1
  const U64_MAX: nat := 0xFFFF_FFFF_FFFF_FFFF
  const U32_MAX: nat := 0xFFFF_FFFF
  const U16_MAX: nat := 0xFFFF
  const OLINT_MAX: nat := 0x7FFF_FFFF

  /** huffman_node_t; code is the symbol's index, left, right and parent are pool indices, or NONE. */
  datatype HuffNode = HuffNode(code: int, freq: nat, ignore: bool, level: nat, left: int, right: int, parent: int)

  const ZeroNode := HuffNode(NONE, 0, false, 0, NONE, NONE, NONE)

  /** The tree below node i; children always have smaller indices than their parent. */
  ghost function TreeAt(ns: seq<HuffNode>, i: nat): Tree
    requires i < |ns|
  {
    if 0 <= ns[i].left < i && 0 <= ns[i].right < i
    then Node(TreeAt(ns, ns[i].left), TreeAt(ns, ns[i].right))
    else Leaf(if ns[i].code >= 0 then ns[i].code else 0)
  }

  ghost predicate NodeOk(ws: seq<nat>, ns: seq<HuffNode>, i: nat)
    requires i < |ns|
  {
    var n := ns[i];
    && n.freq == Weight(ws, TreeAt(ns, i)) && n.level == Height(TreeAt(ns, i))
    && (if n.left == NONE
        then n.right == NONE && 0 <= n.code < |ws|
        else && n.code == NONE && 0 <= n.left < i && 0 <= n.right < i && n.left != n.right
             && ns[n.left].parent == i && ns[n.right].parent == i)
  }

  /** The first cnt nodes of the pool are in use and properly linked. */
  ghost predicate PoolOk(ws: seq<nat>, ns: seq<HuffNode>, cnt: nat) {
    cnt <= |ns| && forall i :: 0 <= i < cnt ==> NodeOk(ws, ns, i)
  }

  /** The slots of the node array hold distinct roots. */
  ghost predicate SlotsOk(ns: seq<HuffNode>, pp: seq<int>, cnt: nat) {
    && cnt <= |ns|
    && (forall i :: 0 <= i < |pp| && pp[i] != NONE ==> 0 <= pp[i] < cnt && ns[pp[i]].parent == NONE)
    && (forall i, j :: 0 <= i < j < |pp| && pp[i] != NONE ==> pp[i] != pp[j])
  }

  ghost function Slots(ns: seq<HuffNode>, pp: seq<int>, cnt: nat): (slots: seq<Slot>)
    requires SlotsOk(ns, pp, cnt)
    ensures |slots| == |pp|
    ensures forall i :: 0 <= i < |pp| ==> slots[i] == if pp[i] == NONE then Empty else Root(TreeAt(ns, pp[i]))
  {
    seq(|pp|, i requires 0 <= i < |pp| => if pp[i] == NONE then Empty else Root(TreeAt(ns, pp[i])))
  }

  /** How many of the first n slots hold a node. */
  ghost function Occupied(pp: seq<int>, n: nat): nat
    requires n <= |pp|
  {
    if n == 0 then 0 else Occupied(pp, n - 1) + if pp[n - 1] != NONE then 1 else 0
  }

  // ----- node pool

  class Pool {
    var nodes: array<HuffNode>
    var numOfAlloc: nat

    /** _createHuffmanNodePool: room for two nodes per symbol. */
    constructor (numOfCode: nat)
      ensures fresh(nodes) && nodes.Length == 2 * numOfCode && numOfAlloc == 0
      ensures forall i :: 0 <= i < nodes.Length ==> nodes[i] == ZeroNode
    {
      nodes := new HuffNode[2 * numOfCode](_ => ZeroNode);
      numOfAlloc := 0;
    }

    /** _getHuffmanNode: the precondition is the assertion at its end. */
    method Get() returns (i: nat)
      requires numOfAlloc < nodes.Length
      modifies this`numOfAlloc
      ensures i == old(numOfAlloc) && numOfAlloc == i + 1
    {
      i := numOfAlloc;
      numOfAlloc := numOfAlloc + 1;
    }
  }

  // ----- the search for the lightest node

  /** Node i may be picked by the search. */
  ghost predicate Eligible(ns: seq<HuffNode>, pp: seq<int>, i: nat) {
    i < |pp| && 0 <= pp[i] < |ns| && !ns[pp[i]].ignore
  }

  /** a is not behind b: lighter, or as light and not deeper. */
  predicate NotAfter(a: HuffNode, b: HuffNode) {
    a.freq < b.freq || (a.freq == b.freq && a.level <= b.level)
  }

  /** _findMinimumFreq: the lightest eligible node, the shallowest of those, the first of those. */
  method FindMinimumFreq(nodes: array<HuffNode>, pp: array<int>) returns (k: int)
    requires forall i :: 0 <= i < pp.Length ==> pp[i] == NONE || 0 <= pp[i] < nodes.Length
    requires forall i :: 0 <= i < pp.Length && pp[i] != NONE ==> nodes[pp[i]].freq < U64_MAX
    ensures k == NONE ==> forall i :: 0 <= i < pp.Length ==> !Eligible(nodes[..], pp[..], i)
    ensures k != NONE ==> 0 <= k && Eligible(nodes[..], pp[..], k)
    ensures k != NONE ==>
              forall i :: 0 <= i < pp.Length && Eligible(nodes[..], pp[..], i) ==>
                NotAfter(nodes[pp[k]], nodes[pp[i]]) && (i < k ==> !NotAfter(nodes[pp[i]], nodes[pp[k]]))
  {
    k := NONE;
    var currentCount, currentLevel := U64_MAX, OLINT_MAX;
    for i := 0 to pp.Length
      invariant k == NONE ==> currentCount == U64_MAX && currentLevel == OLINT_MAX
      invariant k == NONE ==> forall j :: 0 <= j < i ==> !Eligible(nodes[..], pp[..], j)
      invariant k != NONE ==> 0 <= k < i && Eligible(nodes[..], pp[..], k)
      invariant k != NONE ==> currentCount == nodes[pp[k]].freq && currentLevel == nodes[pp[k]].level
      invariant k != NONE ==>
                  forall j :: 0 <= j < i && Eligible(nodes[..], pp[..], j) ==>
                    NotAfter(nodes[pp[k]], nodes[pp[j]]) && (j < k ==> !NotAfter(nodes[pp[j]], nodes[pp[k]]))
    {
      if pp[i] != NONE && !nodes[pp[i]].ignore
         && (nodes[pp[i]].freq < currentCount || (nodes[pp[i]].freq == currentCount && nodes[pp[i]].level < currentLevel))
      {
        k := i;
        currentCount := nodes[pp[i]].freq;
        currentLevel := nodes[pp[i]].level;
      }
    }
  }

  // ----- merging two nodes

  /** ns and ns' describe the same trees up to index k. */
  ghost predicate SameTrees(ns: seq<HuffNode>, ns': seq<HuffNode>, k: nat) {
    && k <= |ns| && k <= |ns'|
    && forall i :: 0 <= i < k ==> ns'[i].code == ns[i].code && ns'[i].left == ns[i].left && ns'[i].right == ns[i].right
  }

  lemma {:induction false} TreeAtSame(ns: seq<HuffNode>, ns': seq<HuffNode>, k: nat, i: nat)
    requires SameTrees(ns, ns', k) && i < k
    ensures TreeAt(ns', i) == TreeAt(ns, i)
  {
    if 0 <= ns[i].left < i && 0 <= ns[i].right < i {
      TreeAtSame(ns, ns', k, ns[i].left);
      TreeAtSame(ns, ns', k, ns[i].right);
    }
  }

  /** The pool after node p has become the parent of l and r. */
  function Composed(ns: seq<HuffNode>, p: nat, l: nat, r: nat): (ns': seq<HuffNode>)
    requires p < |ns| && l < p && r < p && l != r
    ensures |ns'| == |ns|
  {
    var level := if ns[l].level >= ns[r].level then ns[l].level else ns[r].level;
    ns[p := ns[p].(ignore := false, freq := ns[l].freq + ns[r].freq, level := level + 1, left := l, right := r, parent := NONE)]
      [l := ns[l].(parent := p)][r := ns[r].(parent := p)]
  }

  /** _getHuffmanCompositeNode */
  method GetCompositeNode(pool: Pool, l: nat, r: nat) returns (p: nat)
    requires pool.numOfAlloc < pool.nodes.Length
    requires l < pool.numOfAlloc && r < pool.numOfAlloc && l != r
    modifies pool`numOfAlloc, pool.nodes
    ensures p == old(pool.numOfAlloc) && pool.numOfAlloc == p + 1
    ensures pool.nodes[..] == Composed(old(pool.nodes[..]), p, l, r)
  {
    p := pool.Get();
    var ns := pool.nodes;
    ns[p] := ns[p].(ignore := false, freq := ns[l].freq + ns[r].freq);
    ns[p] := ns[p].(level := (if ns[l].level >= ns[r].level then ns[l].level else ns[r].level) + 1);
    ns[p] := ns[p].(left := l);
    ns[l] := ns[l].(parent := p);
    ns[p] := ns[p].(right := r);
    ns[r] := ns[r].(parent := p);
    ns[p] := ns[p].(parent := NONE);
  }

  lemma ComposedOk(ws: seq<nat>, ns: seq<HuffNode>, p: nat, l: nat, r: nat)
    requires PoolOk(ws, ns, p) && p < |ns| && ns[p].code == NONE
    requires l < p && r < p && l != r && ns[l].parent == NONE && ns[r].parent == NONE
    ensures PoolOk(ws, Composed(ns, p, l, r), p + 1)
    ensures TreeAt(Composed(ns, p, l, r), p) == Node(TreeAt(ns, l), TreeAt(ns, r))
    ensures SameTrees(ns, Composed(ns, p, l, r), p)
  {
    var ns' := Composed(ns, p, l, r);
    assert SameTrees(ns, ns', p);
    TreeAtSame(ns, ns', p, l);
    TreeAtSame(ns, ns', p, r);
    forall i | 0 <= i < p + 1 ensures NodeOk(ws, ns', i) {
      if i < p {
        TreeAtSame(ns, ns', p, i);
        assert NodeOk(ws, ns, i);
      } else {
        assert NodeOk(ws, ns, l) && NodeOk(ws, ns, r);
      }
    }
  }

  /** Raising the ignore flags changes no tree. */
  lemma IgnoreOk(ws: seq<nat>, ns: seq<HuffNode>, cnt: nat, i: nat)
    requires PoolOk(ws, ns, cnt) && i < cnt
    ensures PoolOk(ws, ns[i := ns[i].(ignore := true)], cnt)
    ensures SameTrees(ns, ns[i := ns[i].(ignore := true)], cnt)
  {
    var ns' := ns[i := ns[i].(ignore := true)];
    forall j | 0 <= j < cnt ensures NodeOk(ws, ns', j) {
      TreeAtSame(ns, ns', cnt, j);
      assert NodeOk(ws, ns, j);
    }
  }

  lemma {:induction false} OccupiedChange(pp: seq<int>, i: nat, v: int, n: nat)
    requires n <= |pp| && i < |pp|
    ensures Occupied(pp[i := v], n) + (if i < n && pp[i] != NONE then 1 else 0)
         == Occupied(pp, n) + (if i < n && v != NONE then 1 else 0)
  {
    if n > 0 { OccupiedChange(pp, i, v, n - 1); }
  }

  lemma {:induction false} OccupiedTwo(pp: seq<int>, a: nat, b: nat, n: nat)
    requires n <= |pp| && a < n && b < n && a != b && pp[a] != NONE && pp[b] != NONE
    ensures Occupied(pp, n) >= 2
  {
    if n - 1 == a {
      OccupiedOne(pp, b, n - 1);
    } else if n - 1 == b {
      OccupiedOne(pp, a, n - 1);
    } else {
      OccupiedTwo(pp, a, b, n - 1);
    }
  }

  lemma {:induction false} OccupiedOne(pp: seq<int>, a: nat, n: nat)
    requires n <= |pp| && a < n && pp[a] != NONE
    ensures Occupied(pp, n) >= 1
  {
    if a < n - 1 { OccupiedOne(pp, a, n - 1); }
  }

  // ----- the state of the merge loop

  /** No root is ignored and no node beyond cnt has been used. */
  ghost predicate Unmarked(ns: seq<HuffNode>, pp: seq<int>, cnt: nat) {
    && (forall i :: 0 <= i < |pp| && pp[i] != NONE ==> 0 <= pp[i] < |ns| && !ns[pp[i]].ignore)
    && (forall i :: cnt <= i < |ns| ==> ns[i] == ZeroNode)
  }

  /** Slots a and b hold the lightest root and the lightest of the others. */
  ghost predicate Lightest(ns: seq<HuffNode>, pp: seq<int>, a: nat, b: nat) {
    && a < |pp| && b < |pp| && a != b && 0 <= pp[a] < |ns| && 0 <= pp[b] < |ns|
    && (forall i :: 0 <= i < |pp| && 0 <= pp[i] < |ns| ==> ns[pp[a]].freq <= ns[pp[i]].freq)
    && (forall i :: 0 <= i < |pp| && i != a && 0 <= pp[i] < |ns| ==> ns[pp[b]].freq <= ns[pp[i]].freq)
  }

  /** At the head of the loop: a greedy forest in the pool, nothing ignored, and enough nodes left. */
  ghost predicate LoopState(ws: seq<nat>, ns: seq<HuffNode>, pp: seq<int>, cnt: nat) {
    && |pp| == |ws| && |ns| == 2 * |ws|
    && PoolOk(ws, ns, cnt) && SlotsOk(ns, pp, cnt)
    && Unmarked(ns, pp, cnt)
    && GreedyForest(ws, Slots(ns, pp, cnt))
    && cnt + Occupied(pp, |pp|) <= |ns|
  }

  /** The pool and the slots after one round of the loop. */
  ghost function NodesAfterRound(ns: seq<HuffNode>, cnt: nat, l: nat, r: nat): (ns': seq<HuffNode>)
    requires cnt < |ns| && l < cnt && r < cnt && l != r
    ensures |ns'| == |ns|
  {
    Composed(ns[l := ns[l].(ignore := true)][r := ns[r].(ignore := true)], cnt, l, r)
  }

  lemma RoundKeepsPool(ws: seq<nat>, ns: seq<HuffNode>, cnt: nat, l: nat, r: nat)
    requires PoolOk(ws, ns, cnt) && cnt < |ns| && ns[cnt].code == NONE
    requires l < cnt && r < cnt && l != r && ns[l].parent == NONE && ns[r].parent == NONE
    ensures var ns' := NodesAfterRound(ns, cnt, l, r);
            && PoolOk(ws, ns', cnt + 1) && SameTrees(ns, ns', cnt)
            && TreeAt(ns', cnt) == Node(TreeAt(ns, l), TreeAt(ns, r))
  {
    var ns1 := ns[l := ns[l].(ignore := true)];
    var ns2 := ns1[r := ns1[r].(ignore := true)];
    IgnoreOk(ws, ns, cnt, l);
    IgnoreOk(ws, ns1, cnt, r);
    ComposedOk(ws, ns2, cnt, l, r);
    assert SameTrees(ns, ns2, cnt);
    TreeAtSame(ns, ns2, cnt, l);
    TreeAtSame(ns, ns2, cnt, r);
  }

  lemma RoundKeepsSlots(ns: seq<HuffNode>, pp: seq<int>, cnt: nat, a: nat, b: nat)
    requires SlotsOk(ns, pp, cnt) && cnt < |ns|
    requires a < |pp| && b < |pp| && a != b && pp[a] != NONE && pp[b] != NONE
    ensures SlotsOk(NodesAfterRound(ns, cnt, pp[a], pp[b]), pp[a := cnt][b := NONE], cnt + 1)
  {
  }

  lemma RoundMerges(ns: seq<HuffNode>, pp: seq<int>, cnt: nat, a: nat, b: nat, ns': seq<HuffNode>, pp': seq<int>)
    requires SlotsOk(ns, pp, cnt) && SlotsOk(ns', pp', cnt + 1) && SameTrees(ns, ns', cnt)
    requires a < |pp| && b < |pp| && a != b && pp[a] != NONE && pp[b] != NONE && pp' == pp[a := cnt][b := NONE]
    requires TreeAt(ns', cnt) == Node(TreeAt(ns, pp[a]), TreeAt(ns, pp[b]))
    ensures Slots(ns', pp', cnt + 1) == MergeSlots(Slots(ns, pp, cnt), a, b)
  {
    forall i | 0 <= i < |pp| && i != a && pp'[i] != NONE ensures TreeAt(ns', pp'[i]) == TreeAt(ns, pp[i]) {
      TreeAtSame(ns, ns', cnt, pp[i]);
    }
  }

  /** The two searches of a round find the two lightest trees. */
  lemma FoundIsPicked(ws: seq<nat>, ns: seq<HuffNode>, pp: seq<int>, cnt: nat, a: nat, b: nat)
    requires PoolOk(ws, ns, cnt) && SlotsOk(ns, pp, cnt)
    requires Lightest(ns, pp, a, b)
    ensures Picked(ws, Slots(ns, pp, cnt), a, b)
  {
    forall i | 0 <= i < |pp| && pp[i] != NONE ensures ns[pp[i]].freq == Weight(ws, TreeAt(ns, pp[i])) {
      assert NodeOk(ws, ns, pp[i]);
    }
  }

  lemma RoundStaysGreedy(ws: seq<nat>, ns: seq<HuffNode>, pp: seq<int>, cnt: nat, a: nat, b: nat, ns': seq<HuffNode>, pp': seq<int>)
    requires PoolOk(ws, ns, cnt) && SlotsOk(ns, pp, cnt) && SlotsOk(ns', pp', cnt + 1) && SameTrees(ns, ns', cnt)
    requires Lightest(ns, pp, a, b) && pp' == pp[a := cnt][b := NONE]
    requires TreeAt(ns', cnt) == Node(TreeAt(ns, pp[a]), TreeAt(ns, pp[b]))
    requires GreedyForest(ws, Slots(ns, pp, cnt))
    ensures GreedyForest(ws, Slots(ns', pp', cnt + 1))
  {
    hide GreedyForest, Picked, PoolOk, TreeAt, MergeSlots, SameTrees;
    RoundMerges(ns, pp, cnt, a, b, ns', pp');
    FoundIsPicked(ws, ns, pp, cnt, a, b);
    MergeStaysGreedy(ws, Slots(ns, pp, cnt), a, b);
  }

  lemma RoundKeepsFlags(ns: seq<HuffNode>, pp: seq<int>, cnt: nat, a: nat, b: nat)
    requires SlotsOk(ns, pp, cnt) && cnt < |ns|
    requires a < |pp| && b < |pp| && a != b && pp[a] != NONE && pp[b] != NONE
    requires Unmarked(ns, pp, cnt)
    ensures Unmarked(NodesAfterRound(ns, cnt, pp[a], pp[b]), pp[a := cnt][b := NONE], cnt + 1)
  {
  }

  /** One round keeps the state of the loop and uses up one node and one slot. */
  lemma RoundKeepsState(ws: seq<nat>, ns: seq<HuffNode>, pp: seq<int>, cnt: nat, a: nat, b: nat)
    requires LoopState(ws, ns, pp, cnt) && Lightest(ns, pp, a, b)
    ensures cnt < |ns| && pp[a] < cnt && pp[b] < cnt && pp[a] != pp[b]
    ensures LoopState(ws, NodesAfterRound(ns, cnt, pp[a], pp[b]), pp[a := cnt][b := NONE], cnt + 1)
    ensures Occupied(pp[a := cnt][b := NONE], |pp|) == Occupied(pp, |pp|) - 1
  {
    OccupiedTwo(pp, a, b, |pp|);
    assert pp[a] < cnt && pp[b] < cnt && pp[a] != pp[b] && ns[pp[a]].parent == NONE && ns[pp[b]].parent == NONE;
    assert ns[cnt] == ZeroNode;
    hide GreedyForest, PoolOk, SlotsOk, TreeAt, Occupied, NodesAfterRound, Slots, SameTrees, Lightest, Unmarked;
    var ns', pp' := NodesAfterRound(ns, cnt, pp[a], pp[b]), pp[a := cnt][b := NONE];
    RoundKeepsFlags(ns, pp, cnt, a, b);
    RoundKeepsPool(ws, ns, cnt, pp[a], pp[b]);
    RoundKeepsSlots(ns, pp, cnt, a, b);
    RoundStaysGreedy(ws, ns, pp, cnt, a, b, ns', pp');
    OccupiedChange(pp, a, cnt, |pp|);
    OccupiedChange(pp[a := cnt], b, NONE, |pp|);
  }

  /** What the searches may rely on at the head of the loop; frequencies stay below their starting value. */
  lemma SearchReady(ws: seq<nat>, ns: seq<HuffNode>, pp: seq<int>, cnt: nat)
    requires LoopState(ws, ns, pp, cnt)
    requires |ws| <= U16_MAX && forall s :: 0 <= s < |ws| ==> ws[s] <= U32_MAX
    ensures cnt <= |ns| && |pp| == |ws|
    ensures forall i :: 0 <= i < |pp| && pp[i] != NONE ==> 0 <= pp[i] < cnt && !ns[pp[i]].ignore && ns[pp[i]].freq < U64_MAX
    ensures forall i, j :: 0 <= i < j < |pp| && pp[i] != NONE ==> pp[i] != pp[j]
  {
    forall i | 0 <= i < |pp| && pp[i] != NONE ensures ns[pp[i]].freq < U64_MAX {
      assert NodeOk(ws, ns, pp[i]);
      assert Slots(ns, pp, cnt)[i] == Root(TreeAt(ns, pp[i]));
      WeightIsSum(ws, TreeAt(ns, pp[i]));
      SymWeightBound(ws, Syms(TreeAt(ns, pp[i])), |ws|);
    }
  }

  lemma NothingLeft(ws: seq<nat>, ns: seq<HuffNode>, pp: seq<int>, cnt: nat)
    requires LoopState(ws, ns, pp, cnt) && forall i :: 0 <= i < |pp| ==> pp[i] == NONE
    ensures Coded(ws) == {}
  {
  }

  /** What _buildHuffmanTree delivers: node `root` is the root of a well-linked Huffman tree. */
  ghost predicate BuiltTree(ws: seq<nat>, ns: seq<HuffNode>, cnt: nat, root: int) {
    && PoolOk(ws, ns, cnt) && 0 <= root < cnt && ns[root].parent == NONE && Huffman(ws, TreeAt(ns, root))
  }

  lemma OneLeft(ws: seq<nat>, ns: seq<HuffNode>, pp: seq<int>, cnt: nat, a: nat)
    requires LoopState(ws, ns, pp, cnt) && a < |pp| && pp[a] != NONE
    requires forall i :: 0 <= i < |pp| && i != a ==> pp[i] == NONE
    ensures BuiltTree(ws, ns[pp[a] := ns[pp[a]].(ignore := true)], cnt, pp[a]) && Coded(ws) != {}
  {
    var t := TreeAt(ns, pp[a]);
    LastTreeIsHuffman(ws, Slots(ns, pp, cnt), a);
    IgnoreOk(ws, ns, cnt, pp[a]);
    TreeAtSame(ns, ns[pp[a] := ns[pp[a]].(ignore := true)], cnt, pp[a]);
    SomeLeaf(t);
  }

  lemma {:induction false} SomeLeaf(t: Tree)
    ensures Syms(t) != {}
  {
    if t.Node? { SomeLeaf(t.left); }
  }

  /** The first half of a round, and again the second: search, then remove the node found from consideration. */
  method TakeMinimum(nodes: array<HuffNode>, pp: array<int>) returns (k: int)
    requires forall i :: 0 <= i < pp.Length && pp[i] != NONE ==> 0 <= pp[i] < nodes.Length && nodes[pp[i]].freq < U64_MAX
    modifies nodes
    ensures k == NONE ==> forall i :: 0 <= i < pp.Length && pp[i] != NONE ==> old(nodes[pp[i]].ignore)
    ensures k == NONE ==> nodes[..] == old(nodes[..])
    ensures k != NONE ==> 0 <= k < pp.Length && pp[k] != NONE && !old(nodes[pp[k]].ignore)
    ensures k != NONE ==> nodes[..] == old(nodes[..])[pp[k] := old(nodes[pp[k]]).(ignore := true)]
    ensures k != NONE ==>
              forall i :: 0 <= i < pp.Length && pp[i] != NONE && !old(nodes[pp[i]].ignore) ==>
                old(nodes[pp[k]].freq) <= old(nodes[pp[i]].freq)
  {
    k := FindMinimumFreq(nodes, pp);
    ghost var ns := nodes[..];
    assert forall i :: 0 <= i < pp.Length && pp[i] != NONE && !nodes[pp[i]].ignore ==> Eligible(ns, pp[..], i);
    if k != NONE {
      nodes[pp[k]] := nodes[pp[k]].(ignore := true);
    }
  }

  /** _buildHuffmanTree: merges until one tree is left; fails exactly when there is nothing to code. */
  method BuildHuffmanTree(pool: Pool, pp: array<int>, ghost ws: seq<nat>) returns (ok: bool, root: int)
    requires LoopState(ws, pool.nodes[..], pp[..], pool.numOfAlloc)
    requires |ws| <= U16_MAX && forall s :: 0 <= s < |ws| ==> ws[s] <= U32_MAX
    modifies pool`numOfAlloc, pool.nodes, pp
    ensures ok <==> Coded(ws) != {}
    ensures ok ==> BuiltTree(ws, pool.nodes[..], pool.numOfAlloc, root)
  {
    hide LoopState, BuiltTree, Composed, Occupied, Coded;
    while true
      invariant LoopState(ws, pool.nodes[..], pp[..], pool.numOfAlloc)
      decreases Occupied(pp[..], pp.Length)
    {
      ghost var ns, ps, cnt := pool.nodes[..], pp[..], pool.numOfAlloc;
      SearchReady(ws, ns, ps, cnt);
      var min1 := TakeMinimum(pool.nodes, pp);
      if min1 == NONE {
        NothingLeft(ws, ns, ps, cnt);
        return false, NONE;
      }
      ghost var l := pp[min1];
      var min2 := TakeMinimum(pool.nodes, pp);
      if min2 == NONE {
        OneLeft(ws, ns, ps, cnt, min1);
        return true, pp[min1];
      }
      ghost var r := pp[min2];
      RoundKeepsState(ws, ns, ps, cnt, min1, min2);
      pp[min1] := GetCompositeNode(pool, pp[min1], pp[min2]);
      pp[min2] := NONE;
      assert pp[..] == ps[min1 := cnt][min2 := NONE];
      assert pool.nodes[..] == NodesAfterRound(ns, cnt, l, r);
    }
  }
}
