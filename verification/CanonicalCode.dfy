/** Canonical Huffman codes, assigned from the longest length to the shortest (encode/huffman.c). */
module CanonicalCode {
  import opened Bits
  import opened CodeLengths
  import opened PrefixCode

  /** The len low bits of v as a codeword. */
  ghost function Bin(v: nat, len: nat): (w: Word)
    ensures |w| == len
  {
    if len == 0 then [] else Bin(v / 2, len - 1) + [v % 2 == 1]
  }

  /** Code lengths in the order they are served: positive and longest first. */
  ghost predicate Descending(ls: seq<nat>) {
    forall j, k :: 0 <= j <= k < |ls| ==> 0 < ls[k] <= ls[j]
  }

  /** The number served to position k: one more than its predecessor, shortened to the new length. */
  ghost function Number(ls: seq<nat>, k: nat): nat
    requires Descending(ls) && k < |ls|
  {
    if k == 0 then 0 else ShiftR(Number(ls, k - 1) + 1, ls[k - 1] - ls[k])
  }

  /** The codewords served. */
  ghost function Served(ls: seq<nat>): (code: seq<Word>)
    requires Descending(ls)
    ensures |code| == |ls| && forall k :: 0 <= k < |ls| ==> code[k] == Bin(Number(ls, k), ls[k])
  {
    seq(|ls|, k requires 0 <= k < |ls| => Bin(Number(ls, k), ls[k]))
  }

  /** How many of the 2^top words of length `top` the first k codewords use up. */
  ghost function Used(ls: seq<nat>, top: nat, k: nat): nat
    requires k <= |ls| && forall j :: 0 <= j < |ls| ==> ls[j] <= top
  {
    if k == 0 then 0 else Used(ls, top, k - 1) + Pow2(top - ls[k - 1])
  }

  /** What the longer codewords use up is a multiple of the share of a codeword of length ls[k]. */
  ghost predicate Exact(ls: seq<nat>, k: nat)
    requires Descending(ls) && k < |ls|
  {
    Used(ls, ls[0], k) % Pow2(ls[0] - ls[k]) == 0
  }

  /** Every shortening drops only zero bits. */
  ghost predicate ShiftsExact(ls: seq<nat>)
    requires Descending(ls)
  {
    forall k :: 0 < k < |ls| ==> Exact(ls, k)
  }

  // ----- words and numbers

  lemma {:induction false} BinValue(v: nat, len: nat)
    requires v < Pow2(len)
    ensures WordValue(Bin(v, len), len) == v
  {
    if len > 0 {
      BinValue(v / 2, len - 1);
      WordValueSame(Bin(v, len), Bin(v / 2, len - 1), len - 1);
    }
  }

  /** The prefixes of the word of v are the words of v shifted right. */
  lemma {:induction false} BinPrefix(v: nat, len: nat, n: nat)
    requires n <= len
    ensures Bin(v, len)[..n] == Bin(ShiftR(v, len - n), n)
    decreases len
  {
    if n < len {
      BinPrefix(v / 2, len - 1, n);
      assert Bin(v, len)[..n] == Bin(v / 2, len - 1)[..n];
    } else {
      assert Bin(v, len)[..n] == Bin(v, len);
    }
  }

  /** Numbers below 2^len have different words. */
  lemma BinInjective(v: nat, v': nat, len: nat)
    requires v < Pow2(len) && v' < Pow2(len) && Bin(v, len) == Bin(v', len)
    ensures v == v'
  {
    BinValue(v, len);
    BinValue(v', len);
  }

  // ----- exact shifts

  lemma CancelFactor(n: int, a: int, q: int, b: int)
    requires a > 0 && n * a == q * (a * b)
    ensures n == q * b
  {
    MulAssoc(q, a, b);
    Distribute(n, q * b, a);
    if n > q * b { MulAtLeast(a, n - q * b); } else if n < q * b { MulAtLeast(a, q * b - n); Distribute(q * b, n, a); }
  }

  lemma ExactQuotient(x: nat, m: nat) returns (q: nat)
    requires m > 0 && x % m == 0
    ensures x == q * m
  {
    DivModDefinition(x, m);
    q := x / m;
  }

  lemma ExactMultiple(ls: seq<nat>, k: nat) returns (q: nat)
    requires Descending(ls) && k < |ls| && Exact(ls, k)
    ensures Used(ls, ls[0], k) == q * Pow2(ls[0] - ls[k])
  {
    q := ExactQuotient(Used(ls, ls[0], k), Pow2(ls[0] - ls[k]));
  }

  /** As long as the shifts are exact, the numbers served are Kraft's partial sums. */
  lemma {:induction false} NumberExact(ls: seq<nat>, k: nat)
    requires Descending(ls) && k < |ls|
    requires forall i :: 0 < i <= k ==> Exact(ls, i)
    ensures Number(ls, k) * Pow2(ls[0] - ls[k]) == Used(ls, ls[0], k)
  {
    hide Exact, Pow2;
    if k > 0 {
      NumberExact(ls, k - 1);
      var a, d := Pow2(ls[0] - ls[k - 1]), ls[k - 1] - ls[k];
      var n := Number(ls, k - 1) + 1;
      Pow2Add(ls[0] - ls[k - 1], d);
      Distribute(Number(ls, k - 1), 1, a);
      var q := ExactMultiple(ls, k);
      CancelFactor(n, a, q, Pow2(d));
      ShiftRIsDiv(n, d, q, 0);
    }
  }

  lemma {:induction false} UsedMono(ls: seq<nat>, top: nat, j: nat, k: nat)
    requires j <= k <= |ls| && forall i :: 0 <= i < |ls| ==> ls[i] <= top
    ensures Used(ls, top, j) <= Used(ls, top, k)
    ensures j < k ==> Used(ls, top, j) + Pow2(top - ls[j]) <= Used(ls, top, k)
    decreases k
  {
    if j < k { UsedMono(ls, top, j, k - 1); }
  }

  /** With Kraft's sum at most 1, the number served fits its length. */
  lemma NumberFits(ls: seq<nat>, k: nat)
    requires Descending(ls) && ShiftsExact(ls) && k < |ls| && Used(ls, ls[0], |ls|) <= Pow2(ls[0])
    ensures Number(ls, k) < Pow2(ls[k])
  {
    hide Exact, Used, Number, Pow2;
    NumberExact(ls, k);
    UsedMono(ls, ls[0], k, |ls|);
    Pow2Add(ls[k], ls[0] - ls[k]);
    FactorBelow(Number(ls, k), Pow2(ls[0] - ls[k]), Pow2(ls[k]));
  }

  lemma FactorAtMost(n: int, s: int, m: int)
    requires s > 0 && n * s <= m * s
    ensures n <= m
  {
    if n > m { MulMono(m + 1, n, s); Distribute(m, 1, s); }
  }

  lemma FactorBelow(n: int, s: int, m: int)
    requires s > 0 && n * s + s <= m * s
    ensures n < m
  {
    if n >= m { MulMono(m, n, s); }
  }

  lemma InsideShare(ni: int, nj: int, p: int, c: int, r: int)
    requires nj == ni * p + r && 0 <= r < p && c > 0
    ensures ni * (p * c) <= nj * c < ni * (p * c) + p * c
  {
    Distribute(ni * p, r, c);
    MulAssoc(ni, p, c);
    MulMono(r, p - 1, c);
    Distribute(p, 1, c);
    MulMono(0, r, c);
  }

  /** Two words of which one is a prefix of the other belong to numbers of which one is the other shortened. */
  lemma PrefixShortens(ni: nat, nj: nat, li: nat, lj: nat) returns (r: nat)
    requires ni < Pow2(li) && nj < Pow2(lj) && Bin(ni, li) <= Bin(nj, lj)
    ensures li <= lj && nj == ni * Pow2(lj - li) + r && r < Pow2(lj - li)
  {
    BinPrefix(nj, lj, li);
    r := ShiftRSplit(nj, lj - li);
    ShiftedFits(nj, lj, li, ShiftR(nj, lj - li), r);
    BinInjective(ShiftR(nj, lj - li), ni, li);
  }

  /** If the word at i is a prefix of the word at j, the share of j begins inside the share of i. */
  lemma PrefixMeansInside(ls: seq<nat>, i: nat, j: nat)
    requires Descending(ls) && ShiftsExact(ls) && i < |ls| && j < |ls| && Used(ls, ls[0], |ls|) <= Pow2(ls[0])
    requires Bin(Number(ls, i), ls[i]) <= Bin(Number(ls, j), ls[j])
    ensures Used(ls, ls[0], i) <= Used(ls, ls[0], j) < Used(ls, ls[0], i) + Pow2(ls[0] - ls[i])
  {
    hide Exact, Used, Number, Pow2, Bin;
    NumberFits(ls, i);
    NumberFits(ls, j);
    var r := PrefixShortens(Number(ls, i), Number(ls, j), ls[i], ls[j]);
    NumberExact(ls, i);
    NumberExact(ls, j);
    Pow2Add(ls[j] - ls[i], ls[0] - ls[j]);
    InsideShare(Number(ls, i), Number(ls, j), Pow2(ls[j] - ls[i]), Pow2(ls[0] - ls[j]), r);
  }

  lemma ShiftedFits(v: nat, len: nat, n: nat, q: nat, r: nat)
    requires n <= len && v < Pow2(len) && v == q * Pow2(len - n) + r
    ensures q < Pow2(n)
  {
    Pow2Add(n, len - n);
    if q >= Pow2(n) { MulMono(Pow2(n), q, Pow2(len - n)); }
  }

  ghost function Ones(n: nat): (ws: seq<nat>)
    ensures |ws| == n && forall i :: 0 <= i < n ==> ws[i] == 1
  {
    seq(n, _ => 1)
  }

  /** Exact shifts and a Kraft sum of at most 1 make the codewords served a prefix code. */
  lemma ExactGivesPrefixFree(ls: seq<nat>)
    requires Descending(ls) && ShiftsExact(ls) && |ls| > 0 && Used(ls, ls[0], |ls|) <= Pow2(ls[0])
    ensures PrefixFree(Ones(|ls|), Served(ls))
  {
    hide Exact, ShiftsExact, Used, Number, Pow2, Bin;
    forall i, j | 0 <= i < |ls| && 0 <= j < |ls| && i != j ensures !(Served(ls)[i] <= Served(ls)[j]) {
      if Served(ls)[i] <= Served(ls)[j] {
        PrefixMeansInside(ls, i, j);
        if j < i { UsedMono(ls, ls[0], j, i); } else { UsedMono(ls, ls[0], i, j); }
      }
    }
  }

  lemma {:induction false} UsedIsKraft(ls: seq<nat>, top: nat, n: nat)
    requires n <= |ls| && forall i :: 0 <= i < |ls| ==> ls[i] <= top
    ensures Used(ls, top, n) == Kraft(Ones(|ls|), ls, top, n)
  {
    if n > 0 { UsedIsKraft(ls, top, n - 1); }
  }

  lemma DroppedBitMakesPrefix(n: nat, d: nat, len: nat, r: nat)
    requires n > 0 && n == ShiftR(n, d) * Pow2(d) + r && 0 < r < Pow2(d)
    ensures Bin(ShiftR(n, d), len) <= Bin(n - 1, len + d)
  {
    ShiftRIsDiv(n - 1, d, ShiftR(n, d), r - 1);
    BinPrefix(n - 1, len + d, len);
  }

  lemma ExactByProduct(ls: seq<nat>, k: nat, q: nat)
    requires Descending(ls) && k < |ls| && Used(ls, ls[0], k) == q * Pow2(ls[0] - ls[k])
    ensures Exact(ls, k)
  {
    MultipleMod(q, Pow2(ls[0] - ls[k]));
  }

  lemma NextExact(ls: seq<nat>, k: nat)
    requires Descending(ls) && 0 < k < |ls| && forall i :: 0 < i < k ==> Exact(ls, i)
    requires !(Bin(Number(ls, k), ls[k]) <= Bin(Number(ls, k - 1), ls[k - 1]))
    ensures Exact(ls, k)
  {
    hide Exact, Pow2, Bin, ShiftR;
    NumberExact(ls, k - 1);
    var a, d := Pow2(ls[0] - ls[k - 1]), ls[k - 1] - ls[k];
    var n := Number(ls, k - 1) + 1;
    var r := ShiftRSplit(n, d);
    if r > 0 {
      DroppedBitMakesPrefix(n, d, ls[k], r);
      assert false;
    }
    Distribute(Number(ls, k - 1), 1, a);
    MulAssoc(ShiftR(n, d), Pow2(d), a);
    Pow2Add(d, ls[0] - ls[k - 1]);
    ExactByProduct(ls, k, ShiftR(n, d));
  }

  /** If the codewords served form a prefix code, no shift has dropped a one bit. */
  lemma {:induction false} PrefixFreeGivesExact(ls: seq<nat>, k: nat)
    requires Descending(ls) && k < |ls| && PrefixFree(Ones(|ls|), Served(ls))
    ensures forall i :: 0 < i <= k ==> Exact(ls, i)
  {
    hide Exact, Number, Bin;
    if k > 0 {
      PrefixFreeGivesExact(ls, k - 1);
      assert !(Served(ls)[k] <= Served(ls)[k - 1]);
      NextExact(ls, k);
    }
  }

  /** Longest-first assignment yields a prefix code exactly when Kraft's sum is at most 1 and every shortening is exact. */
  lemma ServedPrefixFreeIff(ls: seq<nat>)
    requires Descending(ls) && |ls| > 0
    ensures PrefixFree(Ones(|ls|), Served(ls)) <==> Used(ls, ls[0], |ls|) <= Pow2(ls[0]) && ShiftsExact(ls)
  {
    hide Exact, Used, Number, Pow2, Bin, Kraft;
    if PrefixFree(Ones(|ls|), Served(ls)) {
      PrefixFreeGivesExact(ls, |ls| - 1);
      KraftInequality(Ones(|ls|), Served(ls), ls[0]);
      assert Lengths(Served(ls)) == ls;
      UsedIsKraft(ls, ls[0], |ls|);
    }
    if Used(ls, ls[0], |ls|) <= Pow2(ls[0]) && ShiftsExact(ls) {
      ExactGivesPrefixFree(ls);
    }
  }

  // ----- a Kraft sum of exactly 1

  lemma {:induction false} UsedTail(ls: seq<nat>, k: nat, n: nat) returns (q: nat)
    requires Descending(ls) && k < |ls| && k <= n <= |ls|
    ensures Used(ls, ls[0], n) == Used(ls, ls[0], k) + q * Pow2(ls[0] - ls[k])
    decreases n
  {
    if n == k {
      q := 0;
    } else {
      var q' := UsedTail(ls, k, n - 1);
      var p := Pow2(ls[k] - ls[n - 1]);
      Pow2Add(ls[k] - ls[n - 1], ls[0] - ls[k]);
      q := q' + p;
      Distribute(q', p, Pow2(ls[0] - ls[k]));
    }
  }

  /** Code lengths with a Kraft sum of exactly 1 make every shortening exact. */
  lemma FullKraftIsExact(ls: seq<nat>)
    requires Descending(ls) && |ls| > 0 && Used(ls, ls[0], |ls|) == Pow2(ls[0])
    ensures ShiftsExact(ls)
  {
    hide Exact, Used;
    forall k | 0 < k < |ls| ensures Exact(ls, k) {
      var m := Pow2(ls[0] - ls[k]);
      var q := UsedTail(ls, k, |ls|);
      Pow2Add(ls[k], ls[0] - ls[k]);
      Distribute(Pow2(ls[k]), q, m);
      FactorAtMost(q, m, Pow2(ls[k]));
      ExactByProduct(ls, k, Pow2(ls[k]) - q);
    }
  }

  /** Without it the assignment can fail: lengths 3 and 1 are served 000 and 0. */
  lemma PartialKraftCanFail()
    ensures Descending([3, 1]) && Used([3, 1], 3, 2) < Pow2(3) && !PrefixFree(Ones(2), Served([3, 1]))
  {
    var ls: seq<nat> := [3, 1];
    assert Pow2(2) == 4 && Pow2(0) == 1 && Pow2(3) == 8;
    assert Used(ls, 3, 1) == 1 && Used(ls, 3, 2) == 5;
    ServedPrefixFreeIff(ls);
  }
}
