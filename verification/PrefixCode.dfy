/** Prefix codes and Kraft's inequality. */
module PrefixCode {
  import opened Bits
  import opened CodeLengths

  /** A codeword, most significant bit first: true is a 1 bit, the right branch of a tree. */
  type Word = seq<bool>

  /** The first n bits of a word read as a binary number. */
  ghost function WordValue(w: Word, n: nat): nat
    requires n <= |w|
  {
    if n == 0 then 0 else 2 * WordValue(w, n - 1) + if w[n - 1] then 1 else 0
  }

  lemma {:induction false} WordValueSame(w: Word, w': Word, n: nat)
    requires n <= |w| && n <= |w'| && forall i :: 0 <= i < n ==> w[i] == w'[i]
    ensures WordValue(w, n) == WordValue(w', n)
  {
    if n > 0 { WordValueSame(w, w', n - 1); }
  }

  /** No coded symbol's word is a prefix of another's. */
  ghost predicate PrefixFree(ws: seq<nat>, code: seq<Word>) {
    && |ws| == |code|
    && forall i, j :: 0 <= i < |ws| && 0 <= j < |ws| && i != j && ws[i] > 0 && ws[j] > 0 ==> !(code[i] <= code[j])
  }

  ghost function Lengths(code: seq<Word>): (ls: seq<nat>)
    ensures |ls| == |code| && forall i :: 0 <= i < |code| ==> ls[i] == |code[i]|
  {
    seq(|code|, i requires 0 <= i < |code| => |code[i]|)
  }

  /** Kraft's sum over the words that extend p. */
  ghost function Below(ws: seq<nat>, code: seq<Word>, p: Word, top: nat, n: nat): nat
    requires n <= |ws| == |code|
  {
    if n == 0 then 0
    else Below(ws, code, p, top, n - 1) + if p <= code[n - 1] then Share(ws[n - 1], |code[n - 1]|, top) else 0
  }

  lemma {:induction false} BelowSplits(ws: seq<nat>, code: seq<Word>, p: Word, top: nat, n: nat)
    requires n <= |ws| == |code|
    requires forall i :: 0 <= i < n && ws[i] > 0 ==> code[i] != p
    ensures Below(ws, code, p, top, n) == Below(ws, code, p + [false], top, n) + Below(ws, code, p + [true], top, n)
  {
    if n > 0 {
      BelowSplits(ws, code, p, top, n - 1);
      if ws[n - 1] > 0 { NextBit(p, code[n - 1]); }
    }
  }

  /** A word that properly extends p continues with exactly one of the two bits. */
  lemma NextBit(p: Word, w: Word)
    requires p != w
    ensures p <= w <==> p + [false] <= w || p + [true] <= w
    ensures !(p + [false] <= w && p + [true] <= w)
  {
    OneMore(p, false, w);
    OneMore(p, true, w);
  }

  lemma OneMore(p: Word, b: bool, w: Word)
    ensures p + [b] <= w <==> p <= w && |p| < |w| && w[|p|] == b
  {
    if p + [b] <= w {
      assert forall i :: 0 <= i < |p| ==> p[i] == (p + [b])[i] == w[i];
      assert w[|p|] == (p + [b])[|p|];
    }
  }

  lemma {:induction false} BelowOnly(ws: seq<nat>, code: seq<Word>, p: Word, top: nat, k: nat, n: nat)
    requires n <= |ws| == |code| && k < |ws|
    requires forall i :: 0 <= i < |ws| && i != k && ws[i] > 0 ==> !(p <= code[i])
    ensures Below(ws, code, p, top, n) <= Share(ws[k], |code[k]|, top)
    ensures n <= k ==> Below(ws, code, p, top, n) == 0
  {
    if n > 0 { BelowOnly(ws, code, p, top, k, n - 1); }
  }

  /** A prefix code spends at most 2^(top - |p|) words of length `top` below p. */
  lemma {:induction false} BelowBound(ws: seq<nat>, code: seq<Word>, p: Word, top: nat)
    requires PrefixFree(ws, code) && |p| <= top
    requires forall i :: 0 <= i < |ws| && ws[i] > 0 ==> |code[i]| <= top
    ensures Below(ws, code, p, top, |ws|) <= Pow2(top - |p|)
    decreases top - |p|
  {
    if k :| 0 <= k < |ws| && ws[k] > 0 && code[k] == p {
      BelowOnly(ws, code, p, top, k, |ws|);
    } else if |p| == top {
      BelowNone(ws, code, p, top, |ws|);
    } else {
      BelowSplits(ws, code, p, top, |ws|);
      BelowBound(ws, code, p + [false], top);
      BelowBound(ws, code, p + [true], top);
    }
  }

  lemma {:induction false} BelowNone(ws: seq<nat>, code: seq<Word>, p: Word, top: nat, n: nat)
    requires n <= |ws| == |code|
    requires forall i :: 0 <= i < |ws| && ws[i] > 0 ==> !(p <= code[i])
    ensures Below(ws, code, p, top, n) == 0
  {
    if n > 0 { BelowNone(ws, code, p, top, n - 1); }
  }

  lemma {:induction false} BelowRoot(ws: seq<nat>, code: seq<Word>, top: nat, n: nat)
    requires n <= |ws| == |code|
    ensures Below(ws, code, [], top, n) == Kraft(ws, Lengths(code), top, n)
  {
    if n > 0 { BelowRoot(ws, code, top, n - 1); }
  }

  /** Kraft's inequality: the lengths of a prefix code are feasible. */
  lemma KraftInequality(ws: seq<nat>, code: seq<Word>, top: nat)
    requires PrefixFree(ws, code)
    requires forall i :: 0 <= i < |ws| && ws[i] > 0 ==> |code[i]| <= top
    ensures Feasible(ws, Lengths(code), top)
  {
    BelowBound(ws, code, [], top);
    BelowRoot(ws, code, top, |ws|);
  }

  /** Every code has a longest word. */
  lemma {:induction false} LongestWord(code: seq<Word>, n: nat) returns (top: nat)
    requires n <= |code|
    ensures forall i :: 0 <= i < n ==> |code[i]| <= top
  {
    if n == 0 {
      top := 0;
    } else {
      top := LongestWord(code, n - 1);
      if |code[n - 1]| > top { top := |code[n - 1]|; }
    }
  }
}
