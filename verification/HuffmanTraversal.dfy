/** Reading codes off a Huffman tree without recursion, along parent pointers (encode/huffman.c). */
module HuffmanTraversal {
  import opened Bits
  import opened CodeLengths
  import opened PrefixCode
  import opened HuffmanTree
  import opened HuffmanBuild
  import opened BitArray

  /** JF_ENCODE_MAX_HUFFMAN_CODE_LEN: bytes in a code. */
  const CODE_BYTES: nat := 8

  /** jf_encode_huffman_code_t */
  datatype CodeEntry = CodeEntry(symbol: nat, codeLen: nat, freq: nat, code: seq<Byte>)

  /** Where a node sits in the tree: the way back up to the root, and what was passed on each level. */
  datatype Place = Top | InLeft(up: Place, right: Tree) | InRight(left: Tree, up: Place)

  /** The whole tree, given the subtree at a place. */
  ghost function Plug(p: Place, t: Tree): Tree {
    match p
    case Top => t
    case InLeft(up, r) => Plug(up, Node(t, r))
    case InRight(l, up) => Plug(up, Node(l, t))
  }

  /** The symbols of a tree from left to right. */
  ghost function LeafOrder(t: Tree): seq<nat> {
    match t
    case Leaf(s) => [s]
    case Node(l, r) => LeafOrder(l) + LeafOrder(r)
  }

  /** The symbols to the right of a place. */
  ghost function After(p: Place): seq<nat> {
    match p
    case Top => []
    case InLeft(up, r) => LeafOrder(r) + After(up)
    case InRight(_, up) => After(up)
  }

  ghost function Depth(p: Place): nat {
    match p
    case Top => 0
    case InLeft(up, _) => Depth(up) + 1
    case InRight(_, up) => Depth(up) + 1
  }

  /** The path to a place, left 0 and right 1. */
  ghost function PathTo(p: Place): Word {
    match p
    case Top => []
    case InLeft(up, _) => PathTo(up) + [false]
    case InRight(_, up) => PathTo(up) + [true]
  }

  /** The path read as a binary number. */
  ghost function PathValue(p: Place): nat {
    match p
    case Top => 0
    case InLeft(up, _) => 2 * PathValue(up)
    case InRight(_, up) => 2 * PathValue(up) + 1
  }

  lemma {:induction false} PathToValue(p: Place)
    ensures |PathTo(p)| == Depth(p) && WordValue(PathTo(p), Depth(p)) == PathValue(p) < Pow2(Depth(p))
  {
    if !p.Top? {
      PathToValue(p.up);
      WordValueSame(PathTo(p), PathTo(p.up), Depth(p.up));
    }
  }

  lemma {:induction false} PathOfPlugged(p: Place, t: Tree, s: nat)
    requires NoDup(Plug(p, t)) && s in Syms(t)
    ensures s in Syms(Plug(p, t)) && Path(Plug(p, t), s) == PathTo(p) + Path(t, s)
  {
    match p
    case Top => assert [] + Path(t, s) == Path(t, s);
    case InLeft(up, r) =>
      PathOfPlugged(up, Node(t, r), s);
      assert PathTo(up) + ([false] + Path(t, s)) == (PathTo(up) + [false]) + Path(t, s);
    case InRight(l, up) =>
      PluggedNoDup(up, Node(l, t));
      PathOfPlugged(up, Node(l, t), s);
      assert PathTo(up) + ([true] + Path(t, s)) == (PathTo(up) + [true]) + Path(t, s);
  }

  lemma {:induction false} PluggedNoDup(p: Place, t: Tree)
    requires NoDup(Plug(p, t))
    ensures NoDup(t)
  {
    match p
    case Top =>
    case InLeft(up, r) => PluggedNoDup(up, Node(t, r));
    case InRight(l, up) => PluggedNoDup(up, Node(l, t));
  }

  lemma {:induction false} PluggedHeight(p: Place, t: Tree)
    ensures Depth(p) + Height(t) <= Height(Plug(p, t))
  {
    match p
    case Top =>
    case InLeft(up, r) => PluggedHeight(up, Node(t, r));
    case InRight(l, up) => PluggedHeight(up, Node(l, t));
  }

  lemma {:induction false} PluggedOrder(p: Place, t: Tree) returns (before: seq<nat>)
    ensures LeafOrder(Plug(p, t)) == before + LeafOrder(t) + After(p)
  {
    match p
    case Top =>
      before := [];
    case InLeft(up, r) =>
      before := PluggedOrder(up, Node(t, r));
      assert before + (LeafOrder(t) + LeafOrder(r)) + After(up) == before + LeafOrder(t) + (LeafOrder(r) + After(up));
    case InRight(l, up) =>
      var b := PluggedOrder(up, Node(l, t));
      before := b + LeafOrder(l);
      assert b + (LeafOrder(l) + LeafOrder(t)) + After(up) == b + LeafOrder(l) + LeafOrder(t) + After(up);
  }

  lemma {:induction false} LeafOrderSyms(t: Tree)
    ensures |LeafOrder(t)| > 0 && forall s :: s in LeafOrder(t) <==> s in Syms(t)
  {
    if t.Node? {
      LeafOrderSyms(t.left);
      LeafOrderSyms(t.right);
    }
  }

  lemma {:induction false} LeafOrderDistinct(t: Tree, i: nat, j: nat)
    requires NoDup(t) && i < j < |LeafOrder(t)|
    ensures LeafOrder(t)[i] != LeafOrder(t)[j]
  {
    if t.Node? {
      var k := |LeafOrder(t.left)|;
      if j < k {
        LeafOrderDistinct(t.left, i, j);
      } else if i >= k {
        LeafOrderDistinct(t.right, i - k, j - k);
      } else {
        LeafOrderSyms(t.left);
        LeafOrderSyms(t.right);
        assert LeafOrder(t)[i] in LeafOrder(t.left) && LeafOrder(t)[j] in LeafOrder(t.right);
      }
    }
  }

  // ----- places in the node pool

  /** Node i of the pool sits at place p: its parent pointers lead back to the root along p. */
  ghost predicate At(ns: seq<HuffNode>, cnt: nat, i: nat, p: Place)
    decreases p
  {
    i < cnt <= |ns| &&
    match p
    case Top => ns[i].parent == NONE
    case InLeft(up, r) =>
      var q := ns[i].parent;
      0 <= q < |ns| && ns[q].left == i && ns[q].right != i && 0 <= ns[q].right < |ns| &&
      TreeAt(ns, ns[q].right) == r && At(ns, cnt, q, up)
    case InRight(l, up) =>
      var q := ns[i].parent;
      0 <= q < |ns| && ns[q].right == i && ns[q].left != i && 0 <= ns[q].left < |ns| &&
      TreeAt(ns, ns[q].left) == l && At(ns, cnt, q, up)
  }

  /** The traversal stands on node i, the root of subtree `sub` of t, at place p; `done` has been visited, `sub` not yet. */
  ghost predicate Entering(ns: seq<HuffNode>, cnt: nat, t: Tree, i: nat, p: Place, done: seq<nat>) {
    && At(ns, cnt, i, p) && Plug(p, TreeAt(ns, i)) == t
    && done + (LeafOrder(TreeAt(ns, i)) + After(p)) == LeafOrder(t)
  }

  /** The same after the subtree at node i has been visited. */
  ghost predicate Leaving(ns: seq<HuffNode>, cnt: nat, t: Tree, i: nat, p: Place, done: seq<nat>) {
    && At(ns, cnt, i, p) && Plug(p, TreeAt(ns, i)) == t && done + After(p) == LeafOrder(t)
  }

  lemma GoLeft(ws: seq<nat>, ns: seq<HuffNode>, cnt: nat, t: Tree, i: nat, p: Place, done: seq<nat>) returns (p': Place)
    requires PoolOk(ws, ns, cnt) && Entering(ns, cnt, t, i, p, done) && ns[i].left != NONE
    ensures 0 <= ns[i].left < i && p'.InLeft? && p'.up == p && Entering(ns, cnt, t, ns[i].left, p', done)
    ensures TreeAt(ns, i).Node? && TreeAt(ns, ns[i].left) == TreeAt(ns, i).left
  {
    assert NodeOk(ws, ns, i);
    p' := InLeft(p, TreeAt(ns, ns[i].right));
    var l, r := TreeAt(ns, ns[i].left), TreeAt(ns, ns[i].right);
    assert TreeAt(ns, i) == Node(l, r);
    assert LeafOrder(l) + LeafOrder(r) + After(p) == LeafOrder(l) + (LeafOrder(r) + After(p));
  }

  lemma VisitLeaf(ws: seq<nat>, ns: seq<HuffNode>, cnt: nat, t: Tree, i: nat, p: Place, done: seq<nat>)
    requires PoolOk(ws, ns, cnt) && Entering(ns, cnt, t, i, p, done) && ns[i].left == NONE && NoDup(t)
    ensures 0 <= ns[i].code < |ws| && Leaving(ns, cnt, t, i, p, done + [ns[i].code])
    ensures ns[i].code in Syms(t) && Path(t, ns[i].code) == PathTo(p) && Depth(p) <= Height(t)
    ensures |done| < |LeafOrder(t)|
  {
    assert NodeOk(ws, ns, i);
    var s := ns[i].code;
    assert TreeAt(ns, i) == Leaf(s);
    PathOfPlugged(p, Leaf(s), s);
    assert PathTo(p) + [] == PathTo(p);
    PluggedHeight(p, Leaf(s));
    assert done + ([s] + After(p)) == (done + [s]) + After(p);
  }

  /** From a left child to its sibling. */
  lemma GoRight(ws: seq<nat>, ns: seq<HuffNode>, cnt: nat, t: Tree, i: nat, p: Place, done: seq<nat>) returns (p': Place)
    requires PoolOk(ws, ns, cnt) && Leaving(ns, cnt, t, i, p, done) && ns[i].parent != NONE && 0 <= ns[i].parent < |ns| && i != ns[ns[i].parent].right
    ensures p.InLeft? && p'.InRight? && p'.up == p.up
    ensures 0 <= ns[ns[i].parent].right < cnt && Entering(ns, cnt, t, ns[ns[i].parent].right, p', done)
  {
    AtTop(ns, cnt, i, p);
    assert NodeOk(ws, ns, ns[i].parent);
    p' := InRight(TreeAt(ns, i), p.up);
  }

  /** From a right child to its parent. */
  lemma GoUp(ws: seq<nat>, ns: seq<HuffNode>, cnt: nat, t: Tree, i: nat, p: Place, done: seq<nat>)
    requires PoolOk(ws, ns, cnt) && Leaving(ns, cnt, t, i, p, done) && ns[i].parent != NONE && 0 <= ns[i].parent < |ns| && i == ns[ns[i].parent].right
    ensures p.InRight? && Leaving(ns, cnt, t, ns[i].parent, p.up, done)
  {
    AtTop(ns, cnt, i, p);
    assert NodeOk(ws, ns, ns[i].parent);
  }

  /** Only the root has no parent. */
  lemma AtTop(ns: seq<HuffNode>, cnt: nat, i: nat, p: Place)
    requires At(ns, cnt, i, p)
    ensures ns[i].parent == NONE <==> p.Top?
    ensures ns[i].parent != NONE ==> 0 <= ns[i].parent < cnt
  {
  }

  // ----- code values in the 8-byte buffer

  lemma ShiftInZero(v: nat, d: nat)
    requires v < Pow2(d) && d < 64
    ensures (v * Pow2(1)) % Range(CODE_BYTES) == 2 * v
  {
    Pow2Mono(d + 1, 64);
    assert Pow2(1) == 2;
    DivModUnique(v * 2, Range(CODE_BYTES), 0, 2 * v);
  }

  lemma DropBit(v: nat)
    ensures v / Pow2(1) == v / 2
  {
    assert Pow2(1) == 2;
  }

  lemma Justify(v: nat, d: nat)
    requires v < Pow2(d) && d <= 64
    ensures (v * Pow2(64 - d)) % Range(CODE_BYTES) == v * Pow2(64 - d)
  {
    Pow2Add(d, 64 - d);
    MulMono(v, Pow2(d) - 1, Pow2(64 - d));
    Distribute(Pow2(d), 1, Pow2(64 - d));
    MulMono(0, v, Pow2(64 - d));
    DivModUnique(v * Pow2(64 - d), Range(CODE_BYTES), 0, v * Pow2(64 - d));
  }

  /** The entry holds the codeword w, left-justified in its 8 bytes. */
  ghost predicate Holds(e: CodeEntry, w: Word) {
    && e.codeLen == |w| <= 64 && |e.code| == CODE_BYTES
    && Value(e.code) == WordValue(w, |w|) * Pow2(64 - |w|)
  }

  ghost predicate SameSymbol(e: CodeEntry, e': CodeEntry) {
    e.symbol == e'.symbol && e.freq == e'.freq
  }

  /** Exactly the symbols visited have been given their codes. */
  ghost predicate CodesOf(t: Tree, was: seq<CodeEntry>, now: seq<CodeEntry>, done: seq<nat>) {
    && |now| == |was|
    && (forall s :: 0 <= s < |was| && s !in done ==> now[s] == was[s])
    && (forall s :: s in done ==> s in Syms(t) && s < |now| && Holds(now[s], Path(t, s)) && SameSymbol(now[s], was[s]))
  }

  /** The buffer holds the path to the current place. */
  ghost predicate CodeAt(code: seq<Byte>, depth: nat, p: Place) {
    |code| == CODE_BYTES && depth == Depth(p) && Value(code) == PathValue(p)
  }

  /** Follows the branch all the way left. */
  method DescendLeft(nodes: array<HuffNode>, i0: nat, code: array<Byte>, depth0: nat,
                     ghost ws: seq<nat>, ghost cnt: nat, ghost t: Tree, ghost p0: Place, ghost done: seq<nat>)
    returns (i: nat, depth: nat, ghost p: Place)
    requires PoolOk(ws, nodes[..], cnt) && Entering(nodes[..], cnt, t, i0, p0, done)
    requires code.Length == CODE_BYTES && CodeAt(code[..], depth0, p0) && Height(t) < 64
    modifies code
    ensures Entering(nodes[..], cnt, t, i, p, done) && i < nodes.Length && nodes[i].left == NONE
    ensures CodeAt(code[..], depth, p)
  {
    hide PoolOk, Plug, LeafOrder, TreeAt, Height, Value, After;
    i, depth, p := i0, depth0, p0;
    while nodes[i].left != NONE
      invariant Entering(nodes[..], cnt, t, i, p, done) && CodeAt(code[..], depth, p)
      decreases i
    {
      ghost var p1 := GoLeft(ws, nodes[..], cnt, t, i, p, done);
      PluggedHeight(p, TreeAt(nodes[..], i));
      PathToValue(p);
      ShiftInZero(PathValue(p), depth);
      LShift(code, 1);
      i, depth, p := nodes[i].left, depth + 1, p1;
    }
  }

  /** Climbs until a right sibling is left to visit, or the root is reached. */
  method Ascend(nodes: array<HuffNode>, i0: nat, code: array<Byte>, depth0: nat,
                ghost ws: seq<nat>, ghost cnt: nat, ghost t: Tree, ghost p0: Place, ghost done: seq<nat>)
    returns (i: nat, depth: nat, ghost p: Place)
    requires PoolOk(ws, nodes[..], cnt) && Leaving(nodes[..], cnt, t, i0, p0, done)
    requires code.Length == CODE_BYTES && CodeAt(code[..], depth0, p0)
    modifies code
    ensures i < nodes.Length && CodeAt(code[..], depth, p)
    ensures if nodes[i].parent == NONE then done == LeafOrder(t) else Entering(nodes[..], cnt, t, i, p, done)
  {
    hide PoolOk, Plug, LeafOrder, TreeAt, Value;
    i, depth, p := i0, depth0, p0;
    while nodes[i].parent != NONE
      invariant Leaving(nodes[..], cnt, t, i, p, done) && CodeAt(code[..], depth, p)
      decreases p
    {
      AtTop(nodes[..], cnt, i, p);
      if i != nodes[nodes[i].parent].right {
        ghost var p1 := GoRight(ws, nodes[..], cnt, t, i, p, done);
        SetLastBit(code);
        i, p := nodes[nodes[i].parent].right, p1;
        AtTop(nodes[..], cnt, i, p);
        return;
      } else {
        GoUp(ws, nodes[..], cnt, t, i, p, done);
        DropBit(PathValue(p));
        depth := depth - 1;
        RShift(code, 1);
        i, p := nodes[i].parent, p.up;
      }
    }
    AtTop(nodes[..], cnt, i, p);
  }

  method EnterCode(codes: array<CodeEntry>, s: nat, code: array<Byte>, depth: nat, ghost p: Place)
    requires s < codes.Length && code.Length == CODE_BYTES && CodeAt(code[..], depth, p) && depth < 64
    modifies codes
    ensures codes[..] == old(codes[..])[s := codes[s]]
    ensures Holds(codes[s], PathTo(p)) && SameSymbol(codes[s], old(codes[s]))
  {
    hide Value;
    var copy := new Byte[CODE_BYTES](i requires 0 <= i < code.Length reads code => code[i]);
    assert copy[..] == code[..];
    LShift(copy, 8 * CODE_BYTES - depth);
    PathToValue(p);
    Justify(PathValue(p), depth);
    codes[s] := codes[s].(codeLen := depth, code := copy[..]);
  }

  lemma CodesOfOneMore(t: Tree, was: seq<CodeEntry>, now: seq<CodeEntry>, now': seq<CodeEntry>, done: seq<nat>, s: nat)
    requires CodesOf(t, was, now, done) && s < |now| && s !in done && s in Syms(t)
    requires |now'| == |now| && now' == now[s := now'[s]] && Holds(now'[s], Path(t, s)) && SameSymbol(now'[s], now[s])
    ensures CodesOf(t, was, now', done + [s])
  {
  }

  /** A leaf about to be visited has not been visited before. */
  lemma NotYetVisited(ns: seq<HuffNode>, cnt: nat, t: Tree, i: nat, p: Place, done: seq<nat>, s: nat)
    requires Entering(ns, cnt, t, i, p, done) && TreeAt(ns, i) == Leaf(s) && NoDup(t)
    ensures s !in done
  {
    assert LeafOrder(t)[|done|] == s;
    forall k | 0 <= k < |done| ensures done[k] != s {
      assert LeafOrder(t)[k] == done[k];
      LeafOrderDistinct(t, k, |done|);
    }
  }

  /** _genHuffmanCode: visits every leaf once and stores its path. */
  method GenCodes(nodes: array<HuffNode>, root: nat, codes: array<CodeEntry>, ghost ws: seq<nat>, ghost cnt: nat)
    requires BuiltTree(ws, nodes[..], cnt, root) && codes.Length == |ws|
    requires Height(TreeAt(nodes[..], root)) < 64
    modifies codes
    ensures CodesOf(TreeAt(nodes[..], root), old(codes[..]), codes[..], LeafOrder(TreeAt(nodes[..], root)))
  {
    ghost var t, was := TreeAt(nodes[..], root), codes[..];
    var code := new Byte[CODE_BYTES];
    Clear(code);
    ValueZeros(code[..], CODE_BYTES);
    var depth, i := 0, root;
    ghost var p: Place, done: seq<nat> := Top, [];
    assert Entering(nodes[..], cnt, t, i, p, done) by {
      assert [] + (LeafOrder(t) + []) == LeafOrder(t);
    }
    hide PoolOk, LeafOrder, TreeAt, Height, Value, Entering, Leaving, Huffman, Holds, Path, Syms, NoDup, CodesOf;
    while true
      invariant Entering(nodes[..], cnt, t, i, p, done) && CodeAt(code[..], depth, p)
      invariant CodesOf(t, was, codes[..], done)
      decreases |LeafOrder(t)| - |done|
    {
      i, depth, p := DescendLeft(nodes, i, code, depth, ws, cnt, t, p, done);
      VisitLeaf(ws, nodes[..], cnt, t, i, p, done);
      ghost var s, now := nodes[i].code, codes[..];
      NotYetVisited(nodes[..], cnt, t, i, p, done, s);
      EnterCode(codes, nodes[i].code, code, depth, p);
      CodesOfOneMore(t, was, now, codes[..], done, s);
      done := done + [s];
      i, depth, p := Ascend(nodes, i, code, depth, ws, cnt, t, p, done);
      if nodes[i].parent == NONE {
        break;
      }
    }
  }

  // ----- from frequencies to codes

  function Freqs(codes: seq<CodeEntry>): (ws: seq<nat>)
    ensures |ws| == |codes| && forall s :: 0 <= s < |codes| ==> ws[s] == codes[s].freq
  {
    seq(|codes|, s requires 0 <= s < |codes| => codes[s].freq)
  }

  /** The pool after the leaves of the first k symbols have been made. */
  ghost predicate LeavesMade(ws: seq<nat>, ns: seq<HuffNode>, pp: seq<int>, cnt: nat, k: nat) {
    && cnt <= k <= |ws| == |pp| && |ns| == 2 * |ws| && Occupied(pp, k) == cnt
    && (forall j :: 0 <= j < k && ws[j] == 0 ==> pp[j] == NONE)
    && (forall j :: 0 <= j < k && ws[j] > 0 ==> 0 <= pp[j] < cnt && ns[pp[j]] == ZeroNode.(code := j, freq := ws[j]))
    && (forall j :: k <= j < |pp| ==> pp[j] == NONE)
    && (forall i :: 0 <= i < cnt ==> 0 <= ns[i].code < k && ns[i] == ZeroNode.(code := ns[i].code, freq := ws[ns[i].code]))
    && (forall i :: cnt <= i < |ns| ==> ns[i] == ZeroNode)
  }

  lemma OneMoreLeaf(ws: seq<nat>, ns: seq<HuffNode>, pp: seq<int>, cnt: nat, k: nat)
    requires LeavesMade(ws, ns, pp, cnt, k) && k < |ws|
    ensures cnt < |ns| && ns[cnt] == ZeroNode && |pp| == |ws|
    ensures ws[k] == 0 ==> LeavesMade(ws, ns, pp, cnt, k + 1)
    ensures ws[k] > 0 ==>
              LeavesMade(ws, ns[cnt := ZeroNode.(code := k, freq := ws[k])], pp[k := cnt], cnt + 1, k + 1)
  {
    OccupiedChange(pp, k, cnt, k);
  }

  /** _initHuffmanTreeLeaf */
  method InitLeaves(pool: Pool, pp: array<int>, codes: array<CodeEntry>, ghost ws: seq<nat>)
    requires ws == Freqs(codes[..]) && pp.Length == codes.Length
    requires LeavesMade(ws, pool.nodes[..], pp[..], pool.numOfAlloc, 0)
    modifies pool`numOfAlloc, pool.nodes, pp, codes
    ensures LeavesMade(ws, pool.nodes[..], pp[..], pool.numOfAlloc, |ws|)
    ensures forall s :: 0 <= s < codes.Length ==> codes[s] == old(codes[s]).(codeLen := 0)
  {
    hide LeavesMade;
    for k := 0 to codes.Length
      invariant LeavesMade(ws, pool.nodes[..], pp[..], pool.numOfAlloc, k)
      invariant forall s :: 0 <= s < k ==> codes[s] == old(codes[s]).(codeLen := 0)
      invariant forall s :: k <= s < codes.Length ==> codes[s] == old(codes[s])
    {
      ghost var ns, ps, cnt := pool.nodes[..], pp[..], pool.numOfAlloc;
      OneMoreLeaf(ws, ns, ps, cnt, k);
      codes[k] := codes[k].(codeLen := 0);
      if codes[k].freq != 0 {
        pp[k] := pool.Get();
        pool.nodes[pp[k]] := pool.nodes[pp[k]].(code := k);
        pool.nodes[pp[k]] := pool.nodes[pp[k]].(freq := codes[k].freq);
        assert pp[..] == ps[k := cnt];
        assert pool.nodes[..] == ns[cnt := ZeroNode.(code := k, freq := ws[k])];
      } else {
        assert pp[..] == ps && pool.nodes[..] == ns;
      }
    }
  }

  /** All leaves made, the merge loop can start. */
  lemma LeavesStartLoop(ws: seq<nat>, ns: seq<HuffNode>, pp: seq<int>, cnt: nat)
    requires LeavesMade(ws, ns, pp, cnt, |ws|)
    ensures LoopState(ws, ns, pp, cnt)
  {
    LeavesAreGreedy(ws);
    assert SlotsOk(ns, pp, cnt);
    forall i | 0 <= i < cnt ensures NodeOk(ws, ns, i) {
      assert TreeAt(ns, i) == Leaf(ns[i].code);
    }
    assert Slots(ns, pp, cnt) == Leaves(ws) by {
      forall j | 0 <= j < |pp| && ws[j] > 0 ensures TreeAt(ns, pp[j]) == Leaf(j) {}
    }
  }

  /** The part that both generators share: leaves from the frequencies, then the tree. */
  method MakeTree(codes: array<CodeEntry>) returns (ok: bool, root: int, pool: Pool)
    requires codes.Length <= U16_MAX && forall s :: 0 <= s < codes.Length ==> codes[s].freq <= U32_MAX
    modifies codes
    ensures fresh(pool) && fresh(pool.nodes)
    ensures ok <==> Coded(Freqs(old(codes[..]))) != {}
    ensures ok ==> BuiltTree(Freqs(old(codes[..])), pool.nodes[..], pool.numOfAlloc, root)
    ensures forall s :: 0 <= s < codes.Length ==> codes[s] == old(codes[s]).(codeLen := 0)
  {
    ghost var ws := Freqs(codes[..]);
    var pp := new int[codes.Length](_ => NONE);
    pool := new Pool(codes.Length);
    assert LeavesMade(ws, pool.nodes[..], pp[..], pool.numOfAlloc, 0);
    hide LoopState, BuiltTree, Coded, LeavesMade;
    InitLeaves(pool, pp, codes, ws);
    LeavesStartLoop(ws, pool.nodes[..], pp[..], pool.numOfAlloc);
    ok, root := BuildHuffmanTree(pool, pp, ws);
  }

  /** jf_encode_genHuffmanCode: an optimal prefix code for every alphabet whose total frequency is below the 66th Fibonacci number. */
  method GenHuffmanCode(codes: array<CodeEntry>) returns (ok: bool, ghost t: Tree)
    requires codes.Length <= U16_MAX && forall s :: 0 <= s < codes.Length ==> codes[s].freq <= U32_MAX
    requires SymWeight(Freqs(codes[..]), Coded(Freqs(codes[..])), codes.Length) < FIB66
    modifies codes
    ensures ok <==> Coded(Freqs(old(codes[..]))) != {}
    ensures ok ==> Huffman(Freqs(old(codes[..])), t)
    ensures forall s :: 0 <= s < codes.Length ==>
              if ok && s in Syms(t) then Holds(codes[s], Path(t, s)) && SameSymbol(codes[s], old(codes[s]))
              else codes[s] == old(codes[s]).(codeLen := 0)
  {
    ghost var ws := Freqs(codes[..]);
    hide BuiltTree, Huffman, SymWeight, Holds, Path, Height, Coded, CodesOf, Syms, TreeAt, LeafOrder;
    var root, pool;
    ok, root, pool := MakeTree(codes);
    ghost var was := codes[..];
    t := Leaf(0);
    if ok {
      RootFacts(ws, pool.nodes[..], pool.numOfAlloc, root);
      t := TreeAt(pool.nodes[..], root);
      HuffmanFits(ws, t);
      GenCodes(pool.nodes, root, codes, ws, pool.numOfAlloc);
      AllCoded(t, was, codes[..]);
    }
  }

  lemma AllCoded(t: Tree, was: seq<CodeEntry>, now: seq<CodeEntry>)
    requires CodesOf(t, was, now, LeafOrder(t))
    ensures |now| == |was|
    ensures forall s :: 0 <= s < |was| ==>
              if s in Syms(t) then Holds(now[s], Path(t, s)) && SameSymbol(now[s], was[s]) else now[s] == was[s]
  {
    LeafOrderSyms(t);
  }

  lemma RootFacts(ws: seq<nat>, ns: seq<HuffNode>, cnt: nat, root: int)
    requires BuiltTree(ws, ns, cnt, root)
    ensures 0 <= root < cnt <= |ns| && Huffman(ws, TreeAt(ns, root))
  {
  }
}
