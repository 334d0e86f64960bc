/** Powers of two, the C bit operators on unsigned words, and the small arithmetic facts they need. */
module Bits {

  function Pow2(n: nat): (r: nat)
    ensures r > 0
  {
    if n == 0 then 1 else 2 * Pow2(n - 1)
  }

  /** x << k, before truncation to a word */
  function ShiftL(x: nat, k: nat): nat {
    if k == 0 then x else 2 * ShiftL(x, k - 1)
  }

  /** x >> k */
  function ShiftR(x: nat, k: nat): nat {
    if k == 0 then x else ShiftR(x / 2, k - 1)
  }

  /** x & y */
  function BitAnd(x: nat, y: nat): nat {
    if x == 0 || y == 0 then 0
    else 2 * BitAnd(x / 2, y / 2) + (if x % 2 == 1 && y % 2 == 1 then 1 else 0)
  }

  /** x | y */
  function BitOr(x: nat, y: nat): nat
    decreases x + y
  {
    if x == 0 && y == 0 then 0
    else 2 * BitOr(x / 2, y / 2) + (if x % 2 == 1 || y % 2 == 1 then 1 else 0)
  }

  /** x ^ y */
  function BitXor(x: nat, y: nat): nat
    decreases x + y
  {
    if x == 0 && y == 0 then 0
    else 2 * BitXor(x / 2, y / 2) + (if x % 2 != y % 2 then 1 else 0)
  }

  // ----- powers

  lemma {:induction false} Pow2Add(a: nat, b: nat)
    ensures Pow2(a + b) == Pow2(a) * Pow2(b)
  {
    if a > 0 {
      Pow2Add(a - 1, b);
      assert Pow2(a + b) == 2 * Pow2(a - 1 + b);
    }
  }

  lemma {:induction false} Pow2Mono(a: nat, b: nat)
    requires a <= b
    ensures Pow2(a) <= Pow2(b)
    ensures a < b ==> 2 * Pow2(a) <= Pow2(b)
    decreases b
  {
    if a < b { Pow2Mono(a, b - 1); }
  }

  lemma Pow2Small()
    ensures Pow2(0) == 1 && Pow2(1) == 2 && Pow2(2) == 4 && Pow2(3) == 8 && Pow2(4) == 16
    ensures Pow2(5) == 32 && Pow2(6) == 64 && Pow2(7) == 128 && Pow2(8) == 256
  {
    assert Pow2(4) == 16;
    assert Pow2(6) == 64;
  }

  // ----- products and quotients, in steps small enough for the solver

  lemma MulAtLeast(m: int, d: int)
    requires m > 0 && d >= 1
    ensures m * d >= m
  {
  }

  lemma MulMono(a: int, b: int, c: int)
    requires a <= b && c >= 0
    ensures a * c <= b * c && c * a <= c * b
  {
  }

  lemma Distribute(a: int, b: int, c: int)
    ensures (a + b) * c == a * c + b * c && (a - b) * c == a * c - b * c
    ensures c * (a + b) == c * a + c * b && c * (a - b) == c * a - c * b
  {
  }

  lemma MulAssoc(a: int, b: int, c: int)
    ensures (a * b) * c == a * (b * c) == (a * c) * b
  {
  }

  lemma DivModDefinition(x: int, m: int)
    requires m > 0
    ensures x == m * (x / m) + x % m && 0 <= x % m < m
  {
  }

  lemma SameQuotient(m: int, q: int, r: int, q': int, r': int)
    requires m > 0 && m * q + r == m * q' + r' && 0 <= r < m && 0 <= r' < m
    ensures q == q' && r == r'
  {
    Distribute(q, q', m);
    if q > q' {
      MulAtLeast(m, q - q');
    } else if q < q' {
      MulAtLeast(m, q' - q);
      Distribute(q', q, m);
    }
  }

  /** Quotient and remainder are determined by their defining equation. */
  lemma DivModUnique(x: int, m: int, q: int, r: int)
    requires m > 0 && x == m * q + r && 0 <= r < m
    ensures x / m == q && x % m == r
  {
    DivModDefinition(x, m);
    SameQuotient(m, q, r, x / m, x % m);
  }

  lemma MultipleMod(q: int, m: nat)
    requires m > 0
    ensures (m * q) % m == 0 && (q * m) % m == 0
  {
    DivModUnique(m * q, m, q, 0);
  }

  // ----- bit operators

  lemma {:induction false} ShiftLIsMul(x: nat, k: nat)
    ensures ShiftL(x, k) == x * Pow2(k)
  {
    if k > 0 {
      ShiftLIsMul(x, k - 1);
      MulAssoc(2, Pow2(k - 1), x);
    }
  }

  lemma {:induction false} ShiftRIsDiv(x: nat, k: nat, q: nat, r: nat)
    requires x == q * Pow2(k) + r && r < Pow2(k)
    ensures ShiftR(x, k) == q
  {
    if k > 0 {
      HalfProduct(q, Pow2(k - 1), q * Pow2(k));
      ShiftRIsDiv(x / 2, k - 1, q, r / 2);
    }
  }

  lemma DoubledProduct(q: int, m: int)
    ensures 2 * (q * m) == q * (2 * m)
  {
    MulAssoc(2, m, q);
  }

  /** The bits that a right shift drops. */
  lemma {:induction false} ShiftRSplit(x: nat, k: nat) returns (r: nat)
    ensures x == ShiftR(x, k) * Pow2(k) + r && r < Pow2(k)
  {
    if k == 0 {
      r := 0;
    } else {
      var r' := ShiftRSplit(x / 2, k - 1);
      r := 2 * r' + x % 2;
      DoubledProduct(ShiftR(x, k), Pow2(k - 1));
    }
  }

  lemma {:induction false} BitOrZero(x: nat)
    ensures BitOr(x, 0) == x && BitOr(0, x) == x
  {
    if x > 0 { BitOrZero(x / 2); }
  }

  /** An | of two words that share no bit is their sum. */
  lemma {:induction false} BitOrDisjoint(q: nat, k: nat, x: nat, y: nat)
    requires x == q * Pow2(k) && y < Pow2(k)
    ensures BitOr(x, y) == BitOr(y, x) == x + y
    decreases k
  {
    if k == 0 {
      BitOrZero(x);
    } else {
      HalfProduct(q, Pow2(k - 1), x);
      BitOrDisjoint(q, k - 1, x / 2, y / 2);
    }
  }

  lemma HalfProduct(q: nat, m: nat, x: nat)
    requires x == q * (2 * m)
    ensures x % 2 == 0 && x / 2 == q * m
  {
    MulAssoc(2, m, q);
  }

  lemma BitOrOne(b: nat)
    ensures BitOr(b, 1) == if b % 2 == 0 then b + 1 else b
  {
    BitOrZero(b / 2);
  }
}
