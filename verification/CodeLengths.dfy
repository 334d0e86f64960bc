/** Code lengths, their cost and Kraft's sum: why merging the two rarest symbols never loses.
    A weight of 0 marks a symbol that is not coded. */
module CodeLengths {
  import opened Bits

  /** Total length of a message whose symbol i occurs ws[i] times, over the first n symbols. */
  ghost function Cost(ws: seq<nat>, ls: seq<nat>, n: nat): nat
    requires n <= |ws| == |ls|
  {
    if n == 0 then 0 else Cost(ws, ls, n - 1) + ws[n - 1] * ls[n - 1]
  }

  /** The share of the 2^top words of length `top` that a codeword of length l uses up. */
  ghost function Share(w: nat, l: nat, top: nat): nat {
    if w > 0 && l <= top then Pow2(top - l) else 0
  }

  /** Kraft's sum scaled by 2^top, over the first n symbols. */
  ghost function Kraft(ws: seq<nat>, ls: seq<nat>, top: nat, n: nat): nat
    requires n <= |ws| == |ls|
  {
    if n == 0 then 0 else Kraft(ws, ls, top, n - 1) + Share(ws[n - 1], ls[n - 1], top)
  }

  /** No codeword is longer than `top`, and Kraft's sum is at most 1. */
  ghost predicate Feasible(ws: seq<nat>, ls: seq<nat>, top: nat) {
    && |ws| == |ls|
    && (forall i :: 0 <= i < |ws| && ws[i] > 0 ==> ls[i] <= top)
    && Kraft(ws, ls, top, |ws|) <= Pow2(top)
  }

  // ----- changing one symbol

  lemma {:induction false} CostChange(ws: seq<nat>, ls: seq<nat>, ws': seq<nat>, ls': seq<nat>, i: nat, n: nat)
    requires |ws| == |ls| == |ws'| == |ls'| && i < |ws| && n <= |ws|
    requires ws' == ws[i := ws'[i]] && ls' == ls[i := ls'[i]]
    ensures Cost(ws', ls', n) + (if i < n then ws[i] * ls[i] else 0)
         == Cost(ws, ls, n) + (if i < n then ws'[i] * ls'[i] else 0)
  {
    if n > 0 { CostChange(ws, ls, ws', ls', i, n - 1); }
  }

  lemma {:induction false} KraftChange(ws: seq<nat>, ls: seq<nat>, ws': seq<nat>, ls': seq<nat>, i: nat, top: nat, n: nat)
    requires |ws| == |ls| == |ws'| == |ls'| && i < |ws| && n <= |ws|
    requires ws' == ws[i := ws'[i]] && ls' == ls[i := ls'[i]]
    ensures Kraft(ws', ls', top, n) + (if i < n then Share(ws[i], ls[i], top) else 0)
         == Kraft(ws, ls, top, n) + (if i < n then Share(ws'[i], ls'[i], top) else 0)
  {
    if n > 0 { KraftChange(ws, ls, ws', ls', i, top, n - 1); }
  }

  /** Two codewords already use up their two shares. */
  lemma {:induction false} KraftOfTwo(ws: seq<nat>, ls: seq<nat>, top: nat, x: nat, y: nat, n: nat)
    requires |ws| == |ls| && x < n <= |ws| && y < n && x != y
    ensures Kraft(ws, ls, top, n) >= Share(ws[x], ls[x], top) + Share(ws[y], ls[y], top)
  {
    if x == n - 1 {
      KraftOfOne(ws, ls, top, y, n - 1);
    } else if y == n - 1 {
      KraftOfOne(ws, ls, top, x, n - 1);
    } else {
      KraftOfTwo(ws, ls, top, x, y, n - 1);
    }
  }

  lemma {:induction false} KraftOfOne(ws: seq<nat>, ls: seq<nat>, top: nat, x: nat, n: nat)
    requires |ws| == |ls| && x < n <= |ws|
    ensures Kraft(ws, ls, top, n) >= Share(ws[x], ls[x], top)
  {
    if x < n - 1 { KraftOfOne(ws, ls, top, x, n - 1); }
  }

  // ----- making the longest codewords come in pairs

  lemma {:induction false} KraftLowerTop(ws: seq<nat>, ls: seq<nat>, top: nat, n: nat)
    requires n <= |ws| == |ls| && top > 0
    requires forall i :: 0 <= i < n && ws[i] > 0 ==> ls[i] < top
    ensures Kraft(ws, ls, top, n) == 2 * Kraft(ws, ls, top - 1, n)
  {
    if n > 0 { KraftLowerTop(ws, ls, top, n - 1); }
  }

  ghost predicate LongestPair(ws: seq<nat>, ls: seq<nat>, top: nat, x: nat, y: nat) {
    && Feasible(ws, ls, top) && top > 0 && x < |ws| && y < |ws| && x != y
    && ws[x] > 0 && ws[y] > 0 && ls[x] == top && ls[y] == top
  }

  /** Feasible lengths can be shortened until two symbols share the greatest length. */
  lemma {:induction false} PairLongest(ws: seq<nat>, ls: seq<nat>, top: nat, a: nat, b: nat)
    returns (ls': seq<nat>, top': nat, x: nat, y: nat)
    requires Feasible(ws, ls, top) && a < |ws| && b < |ws| && a != b && ws[a] > 0 && ws[b] > 0
    ensures LongestPair(ws, ls', top', x, y)
    ensures Cost(ws, ls', |ws|) <= Cost(ws, ls, |ws|)
    decreases top
  {
    if top == 0 {
      KraftOfTwo(ws, ls, top, a, b, |ws|);
      assert false;
    } else if x0 :| 0 <= x0 < |ws| && ws[x0] > 0 && ls[x0] == top {
      if y0 :| 0 <= y0 < |ws| && y0 != x0 && ws[y0] > 0 && ls[y0] == top {
        ls', top', x, y := ls, top, x0, y0;
      } else {
        var s := ls[x0 := top - 1];
        CostChange(ws, ls, ws, s, x0, |ws|);
        MulGap(ws[x0], top);
        KraftChange(ws, ls, ws, s, x0, top, |ws|);
        KraftLowerTop(ws, s, top, |ws|);
        ls', top', x, y := PairLongest(ws, s, top - 1, a, b);
      }
    } else {
      KraftLowerTop(ws, ls, top, |ws|);
      ls', top', x, y := PairLongest(ws, ls, top - 1, a, b);
    }
  }

  lemma MulGap(w: int, l: int)
    ensures w * (l - 1) == w * l - w
  {
  }

  // ----- moving the longest codewords to the rarest symbols

  /** Giving the rarer of two symbols the longer codeword does not raise the cost. */
  lemma SwapLengths(ws: seq<nat>, ls: seq<nat>, top: nat, i: nat, j: nat) returns (ls': seq<nat>)
    requires Feasible(ws, ls, top) && i < |ws| && j < |ws|
    requires 0 < ws[i] <= ws[j] && ls[i] <= ls[j]
    ensures ls' == ls[i := ls[j]][j := ls[i]] && Feasible(ws, ls', top)
    ensures Cost(ws, ls', |ws|) <= Cost(ws, ls, |ws|)
  {
    var s := ls[i := ls[j]];
    ls' := s[j := ls[i]];
    CostChange(ws, ls, ws, s, i, |ws|);
    CostChange(ws, s, ws, ls', j, |ws|);
    KraftChange(ws, ls, ws, s, i, top, |ws|);
    KraftChange(ws, s, ws, ls', j, top, |ws|);
    Rearrange(ws[i], ws[j], ls[i], ls[j]);
  }

  lemma Rearrange(w: int, w': int, l: int, l': int)
    requires w <= w' && l <= l'
    ensures w * l' + w' * l <= w * l + w' * l'
  {
    MulMono(w, w', l' - l);
    Distribute(l', l, w);
    Distribute(l', l, w');
  }

  /** a is a rarest symbol and b a rarest one among the others. */
  ghost predicate Rarest(ws: seq<nat>, a: nat, b: nat) {
    && a < |ws| && b < |ws| && a != b && ws[a] > 0 && ws[b] > 0
    && (forall i :: 0 <= i < |ws| && ws[i] > 0 ==> ws[a] <= ws[i])
    && (forall i :: 0 <= i < |ws| && i != a && ws[i] > 0 ==> ws[b] <= ws[i])
  }

  lemma RarestGetLongest(ws: seq<nat>, ls: seq<nat>, top: nat, a: nat, b: nat) returns (ls': seq<nat>, top': nat)
    requires Feasible(ws, ls, top) && Rarest(ws, a, b)
    ensures LongestPair(ws, ls', top', a, b)
    ensures Cost(ws, ls', |ws|) <= Cost(ws, ls, |ws|)
  {
    var x, y;
    ls', top', x, y := PairLongest(ws, ls, top, a, b);
    if ls'[a] != top' {
      var z := if x != b then x else y;
      y := if x != b then y else x;
      ls' := SwapLengths(ws, ls', top', a, z);
    } else if y == a {
      y := x;
    }
    if ls'[b] != top' {
      ls' := SwapLengths(ws, ls', top', b, y);
    }
  }

  ghost function Merged(ws: seq<nat>, a: nat, b: nat): seq<nat>
    requires a < |ws| && b < |ws|
  {
    ws[a := ws[a] + ws[b]][b := 0]
  }

  /** Greedy choice and optimal substructure in one step: any lengths for the symbols cost at least
      ws[a] + ws[b] more than some lengths for the alphabet in which a and b are one symbol. */
  lemma MergeRarest(ws: seq<nat>, ls: seq<nat>, top: nat, a: nat, b: nat) returns (ls': seq<nat>, top': nat)
    requires Feasible(ws, ls, top) && Rarest(ws, a, b)
    ensures Feasible(Merged(ws, a, b), ls', top')
    ensures Cost(Merged(ws, a, b), ls', |ws|) + ws[a] + ws[b] <= Cost(ws, ls, |ws|)
  {
    var s;
    s, top' := RarestGetLongest(ws, ls, top, a, b);
    var ws1 := ws[a := ws[a] + ws[b]];
    ls' := s[a := top' - 1];
    CostChange(ws, s, ws1, ls', a, |ws|);
    CostChange(ws1, ls', Merged(ws, a, b), ls', b, |ws|);
    KraftChange(ws, s, ws1, ls', a, top', |ws|);
    KraftChange(ws1, ls', Merged(ws, a, b), ls', b, top', |ws|);
    MergedTerm(ws[a], ws[b], top');
    assert Pow2(0) == 1 && Pow2(1) == 2;
  }

  lemma MergedTerm(w: int, w': int, l: int)
    ensures w * l + w' * l == (w + w') * (l - 1) + w + w'
  {
    Distribute(w, w', l);
    MulGap(w + w', l);
  }
}
