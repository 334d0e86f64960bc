/** From a Huffman tree to canonical codes: lengths, sorting, assignment (encode/huffman.c). */
module CanonicalAssign {
  import opened Bits
  import opened CodeLengths
  import opened PrefixCode
  import opened BitArray
  import opened HuffmanTree
  import opened HuffmanBuild
  import opened HuffmanTraversal
  import opened CanonicalCode

  // ----- the lengths of a tree have a Kraft sum of 1

  /** The share of the words of length `top` that the symbols pos[..n] of t use up. */
  ghost function TreeShare(t: Tree, pos: seq<nat>, top: nat, n: nat): nat
    requires n <= |pos|
  {
    if n == 0 then 0
    else TreeShare(t, pos, top, n - 1)
         + if pos[n - 1] in Syms(t) then Share(1, |Path(t, pos[n - 1])|, top) else 0
  }

  ghost predicate Distinct(pos: seq<nat>) {
    forall j, k :: 0 <= j < k < |pos| ==> pos[j] != pos[k]
  }

  lemma {:induction false} LeafShare(s: nat, pos: seq<nat>, top: nat, n: nat)
    requires n <= |pos| && Distinct(pos)
    ensures s in pos[..n] ==> TreeShare(Leaf(s), pos, top, n) == Pow2(top)
    ensures s !in pos[..n] ==> TreeShare(Leaf(s), pos, top, n) == 0
  {
    if n > 0 {
      LeafShare(s, pos, top, n - 1);
      assert pos[..n] == pos[..n - 1] + [pos[n - 1]];
    }
  }

  lemma {:induction false} NodeShare(t: Tree, pos: seq<nat>, top: nat, n: nat)
    requires n <= |pos| && t.Node? && NoDup(t) && top > 0
    ensures TreeShare(t, pos, top, n) == TreeShare(t.left, pos, top - 1, n) + TreeShare(t.right, pos, top - 1, n)
  {
    if n > 0 { NodeShare(t, pos, top, n - 1); }
  }

  /** The leaves of a tree use up every word of length `top`. */
  lemma {:induction false} TreeKraft(t: Tree, pos: seq<nat>, top: nat)
    requires NoDup(t) && Distinct(pos) && Height(t) <= top && forall s :: s in Syms(t) ==> s in pos
    ensures TreeShare(t, pos, top, |pos|) == Pow2(top)
  {
    match t
    case Leaf(s) =>
      LeafShare(s, pos, top, |pos|);
      assert pos[..|pos|] == pos;
    case Node(l, r) =>
      NodeShare(t, pos, top, |pos|);
      TreeKraft(l, pos, top - 1);
      TreeKraft(r, pos, top - 1);
  }

  lemma {:induction false} DeepestLeaf(t: Tree) returns (s: nat)
    requires NoDup(t)
    ensures s in Syms(t) && |Path(t, s)| == Height(t)
  {
    match t
    case Leaf(s0) => s := s0;
    case Node(l, r) =>
      if Height(l) >= Height(r) { s := DeepestLeaf(l); } else { s := DeepestLeaf(r); }
  }

  lemma {:induction false} UsedIsTreeShare(t: Tree, pos: seq<nat>, ls: seq<nat>, top: nat, n: nat)
    requires n <= |ls| == |pos| && (forall k :: 0 <= k < |ls| ==> ls[k] <= top)
    requires forall k :: 0 <= k < |pos| ==> pos[k] in Syms(t) && ls[k] == |Path(t, pos[k])|
    ensures Used(ls, top, n) == TreeShare(t, pos, top, n)
  {
    if n > 0 { UsedIsTreeShare(t, pos, ls, top, n - 1); }
  }

  /** The path lengths of a tree's symbols, longest first, are served a prefix code. */
  lemma TreeLengthsServed(t: Tree, pos: seq<nat>, ls: seq<nat>)
    requires NoDup(t) && Distinct(pos) && (forall s :: s in Syms(t) <==> s in pos)
    requires |ls| == |pos| && (forall k :: 0 <= k < |pos| ==> pos[k] in Syms(t) && ls[k] == |Path(t, pos[k])|)
    requires Descending(ls)
    ensures |ls| > 0 && Used(ls, ls[0], |ls|) == Pow2(ls[0])
    ensures PrefixFree(Ones(|ls|), Served(ls))
  {
    var s := DeepestLeaf(t);
    var k :| 0 <= k < |pos| && pos[k] == s;
    assert ls[k] <= ls[0];
    UsedIsTreeShare(t, pos, ls, ls[0], |ls|);
    TreeKraft(t, pos, ls[0]);
    FullKraftIsExact(ls);
    ServedPrefixFreeIff(ls);
  }

  // ----- code lengths from the tree

  /** The code length of a symbol: its depth, or 1 when it is the only symbol. */
  ghost function TreeLen(t: Tree, s: nat): nat
    requires s in Syms(t)
  {
    if |Path(t, s)| == 0 then 1 else |Path(t, s)|
  }

  ghost predicate LengthsOf(t: Tree, was: seq<CodeEntry>, now: seq<CodeEntry>, done: seq<nat>) {
    && |now| == |was|
    && (forall s :: 0 <= s < |was| && s !in done ==> now[s] == was[s])
    && (forall s :: s in done ==> s in Syms(t) && s < |now| && now[s] == was[s].(codeLen := TreeLen(t, s)))
  }

  lemma LengthsOfOneMore(t: Tree, was: seq<CodeEntry>, now: seq<CodeEntry>, done: seq<nat>, s: nat)
    requires LengthsOf(t, was, now, done) && s < |now| && s !in done && s in Syms(t)
    ensures LengthsOf(t, was, now[s := now[s].(codeLen := TreeLen(t, s))], done + [s])
  {
  }

  method LeftmostLeaf(nodes: array<HuffNode>, i0: nat, depth0: nat,
                      ghost ws: seq<nat>, ghost cnt: nat, ghost t: Tree, ghost p0: Place, ghost done: seq<nat>)
    returns (i: nat, depth: nat, ghost p: Place)
    requires PoolOk(ws, nodes[..], cnt) && Entering(nodes[..], cnt, t, i0, p0, done) && depth0 == Depth(p0)
    ensures Entering(nodes[..], cnt, t, i, p, done) && i < nodes.Length && nodes[i].left == NONE && depth == Depth(p)
  {
    hide PoolOk, Plug, LeafOrder, TreeAt, After;
    i, depth, p := i0, depth0, p0;
    while nodes[i].left != NONE
      invariant Entering(nodes[..], cnt, t, i, p, done) && depth == Depth(p)
      decreases i
    {
      ghost var p1 := GoLeft(ws, nodes[..], cnt, t, i, p, done);
      i, depth, p := nodes[i].left, depth + 1, p1;
    }
  }

  method NextSubtree(nodes: array<HuffNode>, i0: nat, depth0: nat,
                     ghost ws: seq<nat>, ghost cnt: nat, ghost t: Tree, ghost p0: Place, ghost done: seq<nat>)
    returns (i: nat, depth: nat, ghost p: Place)
    requires PoolOk(ws, nodes[..], cnt) && Leaving(nodes[..], cnt, t, i0, p0, done)
    requires depth0 == Depth(p0) || (p0.Top? && depth0 == 1)
    ensures i < nodes.Length
    ensures if nodes[i].parent == NONE then done == LeafOrder(t)
            else Entering(nodes[..], cnt, t, i, p, done) && depth == Depth(p)
  {
    hide PoolOk, Plug, LeafOrder, TreeAt;
    i, depth, p := i0, depth0, p0;
    while nodes[i].parent != NONE
      invariant Leaving(nodes[..], cnt, t, i, p, done) && (depth == Depth(p) || (p.Top? && depth == 1))
      decreases p
    {
      AtTop(nodes[..], cnt, i, p);
      if i != nodes[nodes[i].parent].right {
        ghost var p1 := GoRight(ws, nodes[..], cnt, t, i, p, done);
        i, p := nodes[nodes[i].parent].right, p1;
        AtTop(nodes[..], cnt, i, p);
        return;
      } else {
        GoUp(ws, nodes[..], cnt, t, i, p, done);
        depth := depth - 1;
        i, p := nodes[i].parent, p.up;
      }
    }
    AtTop(nodes[..], cnt, i, p);
  }

  /** The traversal of _genCanonicalHuffmanCode: visits every leaf once and stores its depth. */
  method GenLengths(nodes: array<HuffNode>, root: nat, codes: array<CodeEntry>, ghost ws: seq<nat>, ghost cnt: nat)
    requires BuiltTree(ws, nodes[..], cnt, root) && codes.Length == |ws|
    modifies codes
    ensures LengthsOf(TreeAt(nodes[..], root), old(codes[..]), codes[..], LeafOrder(TreeAt(nodes[..], root)))
  {
    ghost var t, was := TreeAt(nodes[..], root), codes[..];
    var depth, i := 0, root;
    ghost var p: Place, done: seq<nat> := Top, [];
    assert Entering(nodes[..], cnt, t, i, p, done) by {
      assert [] + (LeafOrder(t) + []) == LeafOrder(t);
    }
    hide PoolOk, LeafOrder, TreeAt, Height, Entering, Leaving, Huffman, Path, Syms, NoDup, PathTo, LengthsOf;
    while true
      invariant Entering(nodes[..], cnt, t, i, p, done) && depth == Depth(p)
      invariant LengthsOf(t, was, codes[..], done)
      decreases |LeafOrder(t)| - |done|
    {
      i, depth, p := LeftmostLeaf(nodes, i, depth, ws, cnt, t, p, done);
      VisitLeaf(ws, nodes[..], cnt, t, i, p, done);
      PathToValue(p);
      ghost var s := nodes[i].code;
      NotYetVisited(nodes[..], cnt, t, i, p, done, s);
      if depth == 0 {
        depth := depth + 1;
      }
      LengthsOfOneMore(t, was, codes[..], done, s);
      codes[nodes[i].code] := codes[nodes[i].code].(codeLen := depth);
      done := done + [s];
      i, depth, p := NextSubtree(nodes, i, depth, ws, cnt, t, p, done);
      if nodes[i].parent == NONE {
        break;
      }
    }
  }

  // ----- sorting

  /** _compareByCodeLen does not put a after b. */
  predicate InOrder(a: CodeEntry, b: CodeEntry) {
    a.codeLen < b.codeLen || (a.codeLen == b.codeLen && a.symbol <= b.symbol)
  }

  ghost predicate SortedBy(codes: seq<CodeEntry>, order: seq<nat>) {
    && (forall k :: 0 <= k < |order| ==> order[k] < |codes|)
    && (forall j, k :: 0 <= j <= k < |order| ==> InOrder(codes[order[j]], codes[order[k]]))
  }

  /** Inserting index x into a sorted order; the library calls qsort. */
  method InsertSorted(codes: array<CodeEntry>, order: seq<nat>, x: nat) returns (r: seq<nat>)
    requires SortedBy(codes[..], order) && x < codes.Length && Distinct(order) && x !in order
    ensures SortedBy(codes[..], r) && Distinct(r) && |r| == |order| + 1
    ensures forall y :: y in r <==> y == x || y in order
  {
    var k := 0;
    assert forall j :: 0 <= j < |order| ==> order[j] < codes.Length;
    hide SortedBy, Distinct;
    while k < |order| && InOrder(codes[order[k]], codes[x])
      invariant 0 <= k <= |order|
      invariant forall j :: 0 <= j < k ==> InOrder(codes[order[j]], codes[x])
    {
      k := k + 1;
    }
    r := order[..k] + [x] + order[k..];
    InsertedSorted(codes[..], order, k, x, r);
    InsertedDistinct(order, k, x, r);
  }

  lemma InsertedSorted(codes: seq<CodeEntry>, order: seq<nat>, k: nat, x: nat, r: seq<nat>)
    requires SortedBy(codes, order) && x < |codes| && k <= |order| && r == order[..k] + [x] + order[k..]
    requires forall j :: 0 <= j < k ==> InOrder(codes[order[j]], codes[x])
    requires k < |order| ==> InOrder(codes[x], codes[order[k]])
    ensures SortedBy(codes, r)
  {
    assert forall j :: 0 <= j < |r| ==> r[j] == if j < k then order[j] else if j == k then x else order[j - 1];
    forall j | k < j < |r| ensures InOrder(codes[x], codes[r[j]]) {
      assert InOrder(codes[order[k]], codes[order[j - 1]]);
    }
    forall i, j | 0 <= i <= j < |r| ensures InOrder(codes[r[i]], codes[r[j]]) {
      if i != k && j != k {
        assert InOrder(codes[order[if i < k then i else i - 1]], codes[order[if j < k then j else j - 1]]);
      }
    }
  }

  lemma InsertedDistinct(order: seq<nat>, k: nat, x: nat, r: seq<nat>)
    requires Distinct(order) && x !in order && k <= |order| && r == order[..k] + [x] + order[k..]
    ensures Distinct(r) && |r| == |order| + 1 && forall y :: y in r <==> y == x || y in order
  {
    assert forall j :: 0 <= j < |r| ==> r[j] == if j < k then order[j] else if j == k then x else order[j - 1];
    assert r[k] == x;
    forall y | y in order ensures y in r {
      var j :| 0 <= j < |order| && order[j] == y;
      assert r[if j < k then j else j + 1] == y;
    }
  }

  /** The sorted order that jf_encode_genCanonicalHuffmanCodeByCodeLen gets from qsort. */
  method SortByCodeLen(codes: array<CodeEntry>) returns (order: seq<nat>)
    ensures SortedBy(codes[..], order) && Distinct(order) && |order| == codes.Length
    ensures forall s :: s in order <==> 0 <= s < codes.Length
  {
    order := [];
    for i := 0 to codes.Length
      invariant SortedBy(codes[..], order) && Distinct(order) && |order| == i
      invariant forall s :: s in order <==> 0 <= s < i
    {
      order := InsertSorted(codes, order, i);
    }
  }

  // ----- assignment

  /** The order position served as number k. */
  function Turn(order: seq<nat>, k: nat): nat
    requires k < |order|
  {
    order[|order| - 1 - k]
  }

  /** ls lists the positive code lengths in the order they are served. */
  ghost predicate LengthsServed(codes: seq<CodeEntry>, order: seq<nat>, ls: seq<nat>) {
    && |ls| <= |order| && (forall k :: 0 <= k < |order| ==> Turn(order, k) < |codes|)
    && (forall k :: 0 <= k < |ls| ==> ls[k] == codes[Turn(order, k)].codeLen > 0)
    && (forall k :: |ls| <= k < |order| ==> codes[Turn(order, k)].codeLen == 0)
  }

  lemma {:induction false} PositiveLengths(codes: seq<CodeEntry>, order: seq<nat>, n: nat) returns (ls: seq<nat>)
    requires SortedBy(codes, order) && n <= |order|
    ensures |ls| <= n
    ensures forall k :: 0 <= k < |ls| ==> ls[k] == codes[Turn(order, k)].codeLen > 0
    ensures |ls| < n ==> forall k :: |ls| <= k < |order| ==> codes[Turn(order, k)].codeLen == 0
  {
    if n == 0 {
      ls := [];
    } else {
      ls := PositiveLengths(codes, order, n - 1);
      if |ls| == n - 1 {
        var e := codes[Turn(order, n - 1)];
        if e.codeLen > 0 {
          ls := ls + [e.codeLen];
        } else {
          forall k | n - 1 <= k < |order| ensures codes[Turn(order, k)].codeLen == 0 {
            assert InOrder(codes[order[|order| - 1 - k]], codes[order[|order| - n]]);
          }
        }
      }
    }
  }

  lemma ServedDescending(codes: seq<CodeEntry>, order: seq<nat>, ls: seq<nat>)
    requires SortedBy(codes, order) && LengthsServed(codes, order, ls)
    ensures Descending(ls)
  {
    forall j, k | 0 <= j <= k < |ls| ensures 0 < ls[k] <= ls[j] {
      assert InOrder(codes[order[|order| - 1 - k]], codes[order[|order| - 1 - j]]);
    }
  }

  lemma {:induction false} ShiftRShrinks(x: nat, k: nat)
    ensures ShiftR(x, k) <= x
  {
    if k > 0 { ShiftRShrinks(x / 2, k - 1); }
  }

  lemma {:induction false} NumberSmall(ls: seq<nat>, k: nat)
    requires Descending(ls) && k < |ls|
    ensures Number(ls, k) <= k
  {
    if k > 0 {
      NumberSmall(ls, k - 1);
      ShiftRShrinks(Number(ls, k - 1) + 1, ls[k - 1] - ls[k]);
    }
  }

  /** The word of v is what is left of v modulo 2^len. */
  lemma {:induction false} BinLowBits(v: nat, len: nat) returns (q: nat)
    ensures v == q * Pow2(len) + WordValue(Bin(v, len), len) && WordValue(Bin(v, len), len) < Pow2(len)
  {
    if len == 0 {
      q := v;
    } else {
      q := BinLowBits(v / 2, len - 1);
      WordValueSame(Bin(v, len), Bin(v / 2, len - 1), len - 1);
      DoubledProduct(q, Pow2(len - 1));
    }
  }

  /** Shifting v to the left end of the buffer keeps exactly its word. */
  lemma JustifyWord(v: nat, len: nat)
    requires len <= 64
    ensures (v * Pow2(64 - len)) % Range(CODE_BYTES) == WordValue(Bin(v, len), len) * Pow2(64 - len)
  {
    var q := BinLowBits(v, len);
    hide Pow2, WordValue, Bin;
    Pow2Add(len, 64 - len);
    ScaledMod(v, q, WordValue(Bin(v, len), len), Pow2(len), Pow2(64 - len), Range(CODE_BYTES));
  }

  lemma ScaledMod(v: int, q: int, w: int, m: int, p: int, mp: int)
    requires v == q * m + w && 0 <= w < m && p > 0 && mp == m * p
    ensures mp > 0 && (v * p) % mp == w * p
  {
    MulAtLeast(p, m);
    Distribute(q * m, w, p);
    MulAssoc(q, m, p);
    MulMono(w, m - 1, p);
    Distribute(m, 1, p);
    MulMono(0, w, p);
    DivModUnique(v * p, mp, q, w * p);
  }

  /** Before serving number k: the buffer holds the number last served plus one, or 0 at the start. */
  ghost function Pending(ls: seq<nat>, k: nat): nat
    requires Descending(ls) && k <= |ls|
  {
    if k == 0 then 0 else Number(ls, k - 1) + 1
  }

  /** The first k symbols in turn hold their codewords; the others are as before. */
  ghost predicate Assigned(was: seq<CodeEntry>, now: seq<CodeEntry>, order: seq<nat>, ls: seq<nat>, k: nat)
    requires Descending(ls)
  {
    && |now| == |was| && k <= |ls| <= |order| && (forall j :: 0 <= j < |order| ==> Turn(order, j) < |was|)
    && (forall j :: 0 <= j < k ==> Holds(now[Turn(order, j)], Bin(Number(ls, j), ls[j])))
    && (forall j :: 0 <= j < k ==> SameSymbol(now[Turn(order, j)], was[Turn(order, j)]))
    && (forall j :: k <= j < |order| ==> now[Turn(order, j)] == was[Turn(order, j)])
  }

  lemma AssignedOneMore(was: seq<CodeEntry>, now: seq<CodeEntry>, order: seq<nat>, ls: seq<nat>, k: nat, e: CodeEntry)
    requires Descending(ls) && Assigned(was, now, order, ls, k) && k < |ls| && Distinct(order)
    requires Holds(e, Bin(Number(ls, k), ls[k])) && SameSymbol(e, now[Turn(order, k)])
    ensures Assigned(was, now[Turn(order, k) := e], order, ls, k + 1)
  {
    hide Holds, Number, Bin;
  }

  /** Serving one symbol: shorten the pending number, store it left-justified, count up. */
  method ServeOne(codes: array<CodeEntry>, s: nat, code: array<Byte>, length0: nat, ghost ls: seq<nat>, ghost k: nat)
    returns (length: nat)
    requires s < codes.Length && code.Length == CODE_BYTES && Descending(ls) && k < |ls| <= U16_MAX
    requires codes[s].codeLen == ls[k] < 64 && Value(code[..]) == Pending(ls, k)
    requires length0 == if k == 0 then ls[0] else ls[k - 1]
    modifies codes, code
    ensures codes[..] == old(codes[..])[s := codes[s]]
    ensures Holds(codes[s], Bin(Number(ls, k), ls[k])) && SameSymbol(codes[s], old(codes[s]))
    ensures Value(code[..]) == Pending(ls, k + 1) && length == ls[k]
  {
    hide Bin, Value, Pow2, WordValue;
    length := length0;
    if codes[s].codeLen < length {
      ShortenPending(ls, k);
      RShift(code, length - codes[s].codeLen);
      length := codes[s].codeLen;
    }
    assert Value(code[..]) == Number(ls, k);
    var copy := new Byte[CODE_BYTES](i requires 0 <= i < code.Length reads code => code[i]);
    assert copy[..] == code[..];
    JustifyWord(Number(ls, k), ls[k]);
    LShift(copy, 8 * CODE_BYTES - length);
    codes[s] := codes[s].(code := copy[..]);
    CountUp(ls, k);
    Increment(code);
  }

  lemma ShortenPending(ls: seq<nat>, k: nat)
    requires Descending(ls) && 0 < k < |ls|
    ensures Pending(ls, k) / Pow2(ls[k - 1] - ls[k]) == Number(ls, k)
  {
    var d := ls[k - 1] - ls[k];
    var r := ShiftRSplit(Pending(ls, k), d);
    hide Pow2, ShiftR, Pending;
    DivModUnique(Pending(ls, k), Pow2(d), ShiftR(Pending(ls, k), d), r);
  }

  lemma CountUp(ls: seq<nat>, k: nat)
    requires Descending(ls) && k < |ls| <= U16_MAX
    ensures (Number(ls, k) + 1) % Range(CODE_BYTES) == Number(ls, k) + 1
  {
    NumberSmall(ls, k);
    hide Number;
    Pow2Mono(17, 64);
    assert Pow2(17) == 131072 by { Pow2Small(); Pow2Add(8, 9); Pow2Add(1, 8); }
    DivModUnique(Number(ls, k) + 1, Range(CODE_BYTES), 0, Number(ls, k) + 1);
  }

  lemma StartAssign(codes: seq<CodeEntry>, order: seq<nat>) returns (ls: seq<nat>)
    requires SortedBy(codes, order)
    ensures LengthsServed(codes, order, ls) && Descending(ls) && Assigned(codes, codes, order, ls, 0)
    ensures |ls| <= |order| && forall k :: 0 <= k < |order| ==> order[k] < |codes|
  {
    ls := PositiveLengths(codes, order, |order|);
    assert LengthsServed(codes, order, ls);
    ServedDescending(codes, order, ls);
  }

  /** What the loop finds at its k-th turn. */
  lemma NextTurn(was: seq<CodeEntry>, now: seq<CodeEntry>, order: seq<nat>, ls: seq<nat>, k: nat)
    requires Descending(ls) && LengthsServed(was, order, ls) && Assigned(was, now, order, ls, k) && k < |order| <= |was|
    ensures Turn(order, k) < |now| == |was| && now[Turn(order, k)] == was[Turn(order, k)]
    ensures k < |ls| <==> now[Turn(order, k)].codeLen > 0
    ensures k < |ls| ==> now[Turn(order, k)].codeLen == ls[k]
  {
  }

  /** _assignCanonicalCodes: serves the symbols from the longest code to the shortest, stopping at length 0. */
  method AssignCanonicalCodes(codes: array<CodeEntry>, order: seq<nat>) returns (ghost ls: seq<nat>)
    requires SortedBy(codes[..], order) && Distinct(order) && 0 < |order| == codes.Length <= U16_MAX
    requires forall s :: 0 <= s < codes.Length ==> codes[s].codeLen < 64
    modifies codes
    ensures LengthsServed(old(codes[..]), order, ls) && Descending(ls)
    ensures Assigned(old(codes[..]), codes[..], order, ls, |ls|)
  {
    hide LengthsServed, Assigned, SortedBy, Distinct, Descending, Holds, Number, Value, Bin;
    ghost var was := codes[..];
    ls := StartAssign(was, order);
    var n := codes.Length;
    var code := new Byte[CODE_BYTES];
    Clear(code);
    ZeroValue(code[..]);
    var length := codes[order[n - 1]].codeLen;
    var i := n - 1;
    ghost var k := 0;
    while i >= 0
      invariant -1 <= i < n && k == n - 1 - i <= |ls| <= n
      invariant Assigned(was, codes[..], order, ls, k)
      invariant Value(code[..]) == Pending(ls, k)
      invariant k > 0 ==> length == ls[k - 1]
      invariant k == 0 ==> length == codes[order[n - 1]].codeLen
    {
      ghost var now := codes[..];
      NextTurn(was, now, order, ls, k);
      assert order[i] == Turn(order, k);
      if codes[order[i]].codeLen == 0 {
        break;
      }
      length := ServeOne(codes, order[i], code, length, ls, k);
      AssignedOneMore(was, now, order, ls, k, codes[order[i]]);
      i, k := i - 1, k + 1;
    }
  }

  lemma ZeroValue(s: seq<Byte>)
    requires s == Zeros(|s|)
    ensures Value(s) == 0
  {
    ValueZeros(s, |s|);
  }

  // ----- the whole pipeline

  /** The turn at which symbol s is served. */
  ghost function TurnOf(order: seq<nat>, s: nat): (k: nat)
    requires s in order
    ensures k < |order| && Turn(order, k) == s
  {
    var i :| 0 <= i < |order| && order[i] == s;
    |order| - 1 - i
  }

  /** The canonical codeword of each symbol. */
  ghost function CanonicalWords(order: seq<nat>, ls: seq<nat>, n: nat): (words: seq<Word>)
    requires Descending(ls) && forall s :: 0 <= s < n ==> s in order
    ensures |words| == n
    ensures forall s :: 0 <= s < n ==>
              words[s] == if TurnOf(order, s) < |ls| then Served(ls)[TurnOf(order, s)] else []
  {
    seq(n, s requires 0 <= s < n => if TurnOf(order, s) < |ls| then Served(ls)[TurnOf(order, s)] else [])
  }

  /** The code lengths that the traversal leaves in the entries. */
  ghost predicate TreeLengths(ws: seq<nat>, t: Tree, codes: seq<CodeEntry>) {
    && Huffman(ws, t) && |codes| == |ws|
    && forall s :: 0 <= s < |ws| ==> codes[s].codeLen == if s in Syms(t) then TreeLen(t, s) else 0
  }

  ghost predicate FullOrder(order: seq<nat>, n: nat) {
    Distinct(order) && |order| == n && forall s :: s in order <==> 0 <= s < n
  }

  lemma {:induction false} PathOfNode(t: Tree, s: nat)
    requires t.Node? && s in Syms(t)
    ensures |Path(t, s)| > 0
  {
  }

  /** The symbols served are exactly the symbols of the tree. */
  lemma ServedSymbols(ws: seq<nat>, t: Tree, codes: seq<CodeEntry>, order: seq<nat>, ls: seq<nat>) returns (pos: seq<nat>)
    requires TreeLengths(ws, t, codes) && FullOrder(order, |ws|) && LengthsServed(codes, order, ls)
    ensures |pos| == |ls| && Distinct(pos) && forall s :: s in Syms(t) <==> s in pos
    ensures forall k :: 0 <= k < |ls| ==> pos[k] == Turn(order, k) && pos[k] in Syms(t) && ls[k] == TreeLen(t, pos[k])
  {
    pos := seq(|ls|, k requires 0 <= k < |ls| => Turn(order, k));
    forall k | 0 <= k < |ls| ensures pos[k] in Syms(t) && ls[k] == TreeLen(t, pos[k]) {
      assert codes[Turn(order, k)].codeLen > 0;
    }
    forall s | s in Syms(t) ensures s in pos {
      assert s in Coded(ws);
      var k := TurnOf(order, s);
      assert codes[Turn(order, k)].codeLen > 0;
      assert pos[k] == s;
    }
  }

  lemma CanonicalServed(ws: seq<nat>, t: Tree, codes: seq<CodeEntry>, order: seq<nat>, ls: seq<nat>)
    requires TreeLengths(ws, t, codes) && FullOrder(order, |ws|) && LengthsServed(codes, order, ls) && Descending(ls)
    ensures PrefixFree(Ones(|ls|), Served(ls))
  {
    var pos := ServedSymbols(ws, t, codes, order, ls);
    if t.Node? {
      forall k | 0 <= k < |ls| ensures ls[k] == |Path(t, pos[k])| { PathOfNode(t, pos[k]); }
      TreeLengthsServed(t, pos, ls);
    } else {
      assert forall k :: 0 <= k < |pos| ==> pos[k] == t.sym;
      assert |ls| <= 1 by { if |pos| > 1 { assert pos[0] != pos[1]; } }
    }
  }

  /** The canonical codewords form a prefix code with the lengths of the tree. */
  lemma CanonicalIsPrefixCode(ws: seq<nat>, t: Tree, codes: seq<CodeEntry>, order: seq<nat>, ls: seq<nat>)
    requires TreeLengths(ws, t, codes) && FullOrder(order, |ws|) && LengthsServed(codes, order, ls) && Descending(ls)
    ensures PrefixFree(ws, CanonicalWords(order, ls, |ws|))
    ensures forall s :: 0 <= s < |ws| ==> |CanonicalWords(order, ls, |ws|)[s]| == codes[s].codeLen
  {
    hide Served, TreeLengths, LengthsServed, Distinct, Descending;
    CanonicalServed(ws, t, codes, order, ls);
    CodedHaveLengths(ws, t, codes);
    var words := CanonicalWords(order, ls, |ws|);
    forall s | 0 <= s < |ws| ensures |words[s]| == codes[s].codeLen {
      TurnLength(codes, order, ls, s);
    }
    forall i, j | 0 <= i < |ws| && 0 <= j < |ws| && i != j && ws[i] > 0 && ws[j] > 0 ensures !(words[i] <= words[j]) {
      TurnLength(codes, order, ls, i);
      TurnLength(codes, order, ls, j);
      ServedApart(ls, TurnOf(order, i), TurnOf(order, j));
    }
  }

  lemma CodedHaveLengths(ws: seq<nat>, t: Tree, codes: seq<CodeEntry>)
    requires TreeLengths(ws, t, codes)
    ensures |codes| == |ws| && forall s :: 0 <= s < |ws| && ws[s] > 0 ==> codes[s].codeLen > 0
  {
    hide Path;
    assert forall s :: 0 <= s < |ws| && ws[s] > 0 ==> s in Coded(ws);
  }

  lemma ServedApart(ls: seq<nat>, j: nat, k: nat)
    requires Descending(ls) && PrefixFree(Ones(|ls|), Served(ls)) && j < |ls| && k < |ls| && j != k
    ensures !(Served(ls)[j] <= Served(ls)[k])
  {
    hide Number, Bin;
  }

  lemma TurnLength(codes: seq<CodeEntry>, order: seq<nat>, ls: seq<nat>, s: nat)
    requires s in order && s < |codes| && LengthsServed(codes, order, ls)
    ensures TurnOf(order, s) < |ls| <==> codes[s].codeLen > 0
    ensures TurnOf(order, s) < |ls| ==> ls[TurnOf(order, s)] == codes[s].codeLen
  {
    assert codes[Turn(order, TurnOf(order, s))] == codes[s];
  }

  /** With at least two symbols to code, no prefix code is shorter in total. */
  lemma CanonicalOptimal(ws: seq<nat>, t: Tree, words: seq<Word>, code: seq<Word>)
    requires Huffman(ws, t) && t.Node? && |words| == |ws| && PrefixFree(ws, code)
    requires forall s :: 0 <= s < |ws| ==> |words[s]| == if s in Syms(t) then TreeLen(t, s) else 0
    ensures Cost(ws, Lengths(words), |ws|) <= Cost(ws, Lengths(code), |ws|)
  {
    forall s | 0 <= s < |ws| ensures |words[s]| == |TreeCode(t, |ws|)[s]| {
      if s in Syms(t) { PathOfNode(t, s); }
    }
    assert Lengths(words) == Lengths(TreeCode(t, |ws|));
    HuffmanOptimal(ws, t, code);
  }

  /** `now` holds a prefix code with the code lengths of Huffman tree t; symbols without a leaf keep their old code bytes. */
  ghost predicate CanonicalResult(ws: seq<nat>, t: Tree, was: seq<CodeEntry>, now: seq<CodeEntry>, words: seq<Word>) {
    && Huffman(ws, t) && PrefixFree(ws, words) && |words| == |now| == |was| == |ws|
    && (forall s :: 0 <= s < |ws| ==> SameSymbol(now[s], was[s]) && |words[s]| == now[s].codeLen)
    && (forall s :: 0 <= s < |ws| && s in Syms(t) ==> now[s].codeLen == TreeLen(t, s) && Holds(now[s], words[s]))
    && (forall s :: 0 <= s < |ws| && s !in Syms(t) ==> now[s].codeLen == 0 && now[s].code == was[s].code)
  }

  /** Every symbol's entry after the assignment. */
  lemma AllAssigned(ws: seq<nat>, t: Tree, was: seq<CodeEntry>, now: seq<CodeEntry>, order: seq<nat>, ls: seq<nat>)
    requires TreeLengths(ws, t, was) && FullOrder(order, |ws|) && LengthsServed(was, order, ls) && Descending(ls)
    requires Assigned(was, now, order, ls, |ls|)
    ensures CanonicalResult(ws, t, was, now, CanonicalWords(order, ls, |ws|))
  {
    CanonicalIsPrefixCode(ws, t, was, order, ls);
    hide Huffman, PrefixFree, Holds, Number, Bin, Distinct;
    forall s | 0 <= s < |ws|
      ensures SameSymbol(now[s], was[s]) && now[s].codeLen == was[s].codeLen
      ensures if was[s].codeLen > 0 then Holds(now[s], CanonicalWords(order, ls, |ws|)[s]) else now[s] == was[s]
    {
      EntryAssigned(was, now, order, ls, s);
    }
  }

  lemma EntryAssigned(was: seq<CodeEntry>, now: seq<CodeEntry>, order: seq<nat>, ls: seq<nat>, s: nat)
    requires s in order && LengthsServed(was, order, ls) && Descending(ls) && Assigned(was, now, order, ls, |ls|) && s < |was|
    ensures |now| == |was| && SameSymbol(now[s], was[s]) && now[s].codeLen == was[s].codeLen
    ensures if was[s].codeLen > 0 then TurnOf(order, s) < |ls| && Holds(now[s], Served(ls)[TurnOf(order, s)])
            else now[s] == was[s]
  {
    var k := TurnOf(order, s);
    assert was[Turn(order, k)] == was[s] && now[Turn(order, k)] == now[s];
  }

  /** jf_encode_genCanonicalHuffmanCodeByCodeLen: from the longest code length to the shortest, every symbol with a length
      gets the next number of that length as its codeword; the others are left alone. */
  method GenCanonicalByCodeLen(codes: array<CodeEntry>) returns (ghost order: seq<nat>, ghost ls: seq<nat>)
    requires 0 < codes.Length <= U16_MAX && forall s :: 0 <= s < codes.Length ==> codes[s].codeLen < 64
    modifies codes
    ensures FullOrder(order, codes.Length) && LengthsServed(old(codes[..]), order, ls) && Descending(ls)
    ensures Assigned(old(codes[..]), codes[..], order, ls, |ls|)
  {
    hide SortedBy, Distinct, LengthsServed, Assigned, Descending;
    var sorted := SortByCodeLen(codes);
    order := sorted;
    ls := AssignCanonicalCodes(codes, sorted);
  }

  /** On the code lengths of a Huffman tree the result is a prefix code. */
  method GenCanonicalForTree(codes: array<CodeEntry>, ghost ws: seq<nat>, ghost t: Tree) returns (ghost words: seq<Word>)
    requires 0 < codes.Length <= U16_MAX && TreeLengths(ws, t, codes[..])
    requires forall s :: 0 <= s < codes.Length ==> codes[s].codeLen < 64
    modifies codes
    ensures CanonicalResult(ws, t, old(codes[..]), codes[..], words)
  {
    ghost var was := codes[..];
    assert |ws| == codes.Length;
    hide TreeLengths, CanonicalResult, SortedBy, FullOrder, LengthsServed, Assigned, Descending;
    ghost var order, ls := GenCanonicalByCodeLen(codes);
    AllAssigned(ws, t, was, codes[..], order, ls);
    OrderIsFull(order, |ws|);
    words := CanonicalWords(order, ls, |ws|);
  }

  lemma OrderIsFull(order: seq<nat>, n: nat)
    requires FullOrder(order, n)
    ensures forall s :: 0 <= s < n ==> s in order
  {
  }

  lemma AllLengths(ws: seq<nat>, t: Tree, was: seq<CodeEntry>, now: seq<CodeEntry>)
    requires LengthsOf(t, was, now, LeafOrder(t)) && Huffman(ws, t) && |was| == |ws|
    requires SymWeight(ws, Coded(ws), |ws|) < FIB66
    requires forall s :: 0 <= s < |was| ==> was[s].codeLen == 0
    ensures TreeLengths(ws, t, now) && forall s :: 0 <= s < |now| ==> now[s].codeLen < 64
    ensures forall s :: 0 <= s < |now| ==> now[s].(codeLen := 0) == was[s]
  {
    LeafOrderSyms(t);
    HuffmanFits(ws, t);
  }

  lemma ResultFrom(ws: seq<nat>, t: Tree, was: seq<CodeEntry>, was': seq<CodeEntry>, now: seq<CodeEntry>, words: seq<Word>)
    requires CanonicalResult(ws, t, was', now, words) && |was| == |was'|
    requires forall s :: 0 <= s < |was| ==> SameSymbol(was'[s], was[s]) && was'[s].code == was[s].code
    ensures CanonicalResult(ws, t, was, now, words)
  {
  }

  /** jf_encode_genCanonicalHuffmanCode: a canonical prefix code with the lengths of a Huffman tree. */
  method GenCanonicalHuffmanCode(codes: array<CodeEntry>) returns (ok: bool, ghost t: Tree, ghost words: seq<Word>)
    requires 0 < codes.Length <= U16_MAX && forall s :: 0 <= s < codes.Length ==> codes[s].freq <= U32_MAX
    requires SymWeight(Freqs(codes[..]), Coded(Freqs(codes[..])), codes.Length) < FIB66
    modifies codes
    ensures ok <==> Coded(Freqs(old(codes[..]))) != {}
    ensures ok ==> CanonicalResult(Freqs(old(codes[..])), t, old(codes[..]), codes[..], words)
  {
    ghost var ws := Freqs(codes[..]);
    hide BuiltTree, Huffman, SymWeight, Coded, LengthsOf, Syms, TreeAt, LeafOrder, TreeLengths, CanonicalResult;
    var root, pool;
    ok, root, pool := MakeTree(codes);
    ghost var zeroed := codes[..];
    t, words := Leaf(0), [];
    if ok {
      RootFacts(ws, pool.nodes[..], pool.numOfAlloc, root);
      t := TreeAt(pool.nodes[..], root);
      GenLengths(pool.nodes, root, codes, ws, pool.numOfAlloc);
      AllLengths(ws, t, zeroed, codes[..]);
      ghost var was := codes[..];
      words := GenCanonicalForTree(codes, ws, t);
      ResultFrom(ws, t, old(codes[..]), was, codes[..], words);
    }
  }
}
