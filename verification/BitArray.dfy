/** Multi-byte bit arrays (jiutai/jf_bitarray.h): a big-endian byte buffer changed in place. */
module BitArray {
  import opened Bits

  type Byte = x: int | 0 <= x < 256

  /** The unsigned integer held by the first n bytes, byte 0 being the most significant. */
  function ValueTo(s: seq<Byte>, n: nat): nat
    requires n <= |s|
  {
    if n == 0 then 0 else 256 * ValueTo(s, n - 1) + s[n - 1]
  }

  /** The unsigned integer a bit array holds. */
  function Value(s: seq<Byte>): nat {
    ValueTo(s, |s|)
  }

  /** How many values n bytes can hold. */
  function Range(n: nat): nat {
    Pow2(8 * n)
  }

  function Zeros(n: nat): (z: seq<Byte>)
    ensures |z| == n
  {
    seq(n, _ => 0)
  }

  lemma RangeStep(n: nat)
    ensures Range(n + 1) == 256 * Range(n)
  {
    Pow2Add(8, 8 * n);
    Pow2Small();
  }

  lemma {:induction false} ValueToSame(s: seq<Byte>, t: seq<Byte>, n: nat)
    requires n <= |s| && n <= |t|
    requires forall i :: 0 <= i < n ==> s[i] == t[i]
    ensures ValueTo(s, n) == ValueTo(t, n)
  {
    if n > 0 { ValueToSame(s, t, n - 1); }
  }

  lemma {:induction false} ValueBound(s: seq<Byte>, n: nat)
    requires n <= |s|
    ensures ValueTo(s, n) < Range(n)
  {
    if n > 0 {
      ValueBound(s, n - 1);
      RangeStep(n - 1);
    }
  }

  lemma {:induction false} ValueZeros(s: seq<Byte>, n: nat)
    requires n <= |s| && forall i :: 0 <= i < n ==> s[i] == 0
    ensures ValueTo(s, n) == 0
  {
    if n > 0 { ValueZeros(s, n - 1); }
  }

  /** Moving the window of bytes from s to t, c places to the left, keeps their joint value. */
  lemma {:induction false} ValueWindow(s: seq<Byte>, t: seq<Byte>, c: nat, n: nat)
    requires c + n <= |s| && n <= |t|
    requires forall i :: 0 <= i < n ==> t[i] == s[c + i]
    ensures ValueTo(s, c + n) == ValueTo(s, c) * Range(n) + ValueTo(t, n)
  {
    if n > 0 {
      ValueWindow(s, t, c, n - 1);
      RangeStep(n - 1);
      Horner(ValueTo(s, c), Range(n - 1), ValueTo(t, n - 1));
    }
  }

  lemma Horner(a: int, m: int, w: int)
    ensures 256 * (a * m + w) == a * (256 * m) + 256 * w
  {
    MulAssoc(256, m, a);
  }

  // ----- shifting by less than a byte

  /** The part of b * 2^r that leaves the byte, which are its top r bits, and the part that stays. */
  lemma ByteParts(b: Byte, r: nat)
    requires 0 < r < 8
    ensures ShiftL(b, r) == b * Pow2(r) && (b * Pow2(r)) / 256 == ShiftR(b, 8 - r) < Pow2(r)
    ensures (b * Pow2(r)) % 256 == (b % Pow2(8 - r)) * Pow2(r) <= 256 - Pow2(r)
  {
    var p, q := Pow2(r), Pow2(8 - r);
    ShiftLIsMul(b, r);
    Pow2Small();
    Split(b, p, q);
    ShiftRIsDiv(b, 8 - r, b / q, b % q);
  }

  lemma Split(b: Byte, p: nat, q: nat)
    requires || (p == 2 && q == 128) || (p == 4 && q == 64) || (p == 8 && q == 32) || (p == 16 && q == 16)
             || (p == 32 && q == 8) || (p == 64 && q == 4) || (p == 128 && q == 2)
    ensures (b * p) / 256 == b / q < p && (b * p) % 256 == (b % q) * p <= 256 - p
    ensures b == (b / q) * q + b % q
  {
    if p == 2 {} else if p == 4 {} else if p == 8 {} else if p == 16 {} else if p == 32 {} else if p == 64 {} else {}
  }

  /** The two halves of a shifted byte share no bit, so | adds them. */
  lemma OrOfParts(hi: Byte, lo: Byte, r: nat)
    requires 0 < r < 8
    ensures var x, y := ShiftL(hi, r) % 256, ShiftR(lo, 8 - r);
            BitOr(x, y) == BitOr(y, x) == (hi * Pow2(r)) % 256 + (lo * Pow2(r)) / 256 < 256
  {
    ByteParts(hi, r);
    ByteParts(lo, r);
    BitOrDisjoint(hi % Pow2(8 - r), r, (hi * Pow2(r)) % 256, ShiftR(lo, 8 - r));
  }

  /** One byte of a left shift: its own bits moved up, the top bits of the next byte below them. */
  function ShlByte(b: Byte, next: Byte, r: nat): Byte
    requires 0 < r < 8
  {
    OrOfParts(b, next, r);
    BitOr(ShiftL(b, r) % 256, ShiftR(next, 8 - r))
  }

  /** One byte of a right shift: its own bits moved down, the low bits of the previous byte above them. */
  function ShrByte(prev: Byte, b: Byte, r: nat): Byte
    requires 0 < r < 8
  {
    OrOfParts(prev, b, 8 - r);
    BitOr(ShiftR(b, r), ShiftL(prev, 8 - r) % 256)
  }

  /** t holds the bytes a left shift of s by r bits leaves. */
  ghost predicate ShlBytes(s: seq<Byte>, t: seq<Byte>, r: nat) {
    && 0 < r < 8 && |t| == |s| > 0
    && (forall i :: 0 <= i < |s| - 1 ==> t[i] == ShlByte(s[i], s[i + 1], r))
    && t[|s| - 1] == ShlByte(s[|s| - 1], 0, r)
  }

  /** t holds the bytes a right shift of s by r bits leaves. */
  ghost predicate ShrBytes(s: seq<Byte>, t: seq<Byte>, r: nat) {
    && 0 < r < 8 && |t| == |s| > 0
    && t[0] == ShrByte(0, s[0], r)
    && (forall i :: 0 < i < |s| ==> t[i] == ShrByte(s[i - 1], s[i], r))
  }

  lemma MulStep(v: int, b: int, p: int, x: int, out: int, m: int, w: int)
    requires x == b * p && v * p + x / 256 == out * m + w
    ensures (256 * v + b) * p == out * (256 * m) + 256 * w + x % 256
  {
    Distribute(256 * v, b, p);
    MulAssoc(256, v, p);
    Horner(out, m, w);
  }

  /** t is s times p inside the array, the overflow of each byte added to the byte before it. */
  ghost predicate Carried(s: seq<Byte>, t: seq<Byte>, p: nat) {
    && |t| == |s| > 0
    && (forall i :: 0 <= i < |s| - 1 ==> t[i] == (s[i] * p) % 256 + (s[i + 1] * p) / 256)
    && t[|s| - 1] == (s[|s| - 1] * p) % 256
  }

  lemma ShlCarried(s: seq<Byte>, t: seq<Byte>, r: nat)
    requires ShlBytes(s, t, r)
    ensures Carried(s, t, Pow2(r))
  {
    hide ShlByte, Pow2;
    forall i | 0 <= i < |s| - 1 ensures t[i] == (s[i] * Pow2(r)) % 256 + (s[i + 1] * Pow2(r)) / 256 {
      ShlByteValue(s[i], s[i + 1], r);
    }
    ShlByteValue(s[|s| - 1], 0, r);
  }

  lemma ShlByteValue(b: Byte, next: Byte, r: nat)
    requires 0 < r < 8
    ensures ShlByte(b, next, r) == (b * Pow2(r)) % 256 + (next * Pow2(r)) / 256
  {
    OrOfParts(b, next, r);
  }

  /** What the first n bytes and the bits entering them become; `out` is carried out on the left. */
  lemma {:induction false} CarryPrefix(s: seq<Byte>, t: seq<Byte>, p: nat, n: nat) returns (out: nat)
    requires Carried(s, t, p) && n < |s|
    ensures ValueTo(s, n) * p + (s[n] * p) / 256 == out * Range(n) + ValueTo(t, n)
  {
    if n == 0 {
      out := (s[n] * p) / 256;
    } else {
      out := CarryPrefix(s, t, p, n - 1);
      RangeStep(n - 1);
      MulStep(ValueTo(s, n - 1), s[n - 1], p, s[n - 1] * p, out, Range(n - 1), ValueTo(t, n - 1));
    }
  }

  lemma ShlBytesValue(s: seq<Byte>, t: seq<Byte>, r: nat) returns (out: nat)
    requires ShlBytes(s, t, r)
    ensures Value(s) * Pow2(r) == out * Range(|s|) + Value(t)
  {
    hide ShlByte, Pow2;
    var n, p := |s| - 1, Pow2(r);
    ShlCarried(s, t, r);
    out := CarryPrefix(s, t, p, n);
    RangeStep(n);
    MulStep(ValueTo(s, n), s[n], p, s[n] * p, out, Range(n), ValueTo(t, n));
  }

  lemma {:induction false} ShrPrefix(s: seq<Byte>, t: seq<Byte>, r: nat, n: nat)
    requires ShrBytes(s, t, r) && 0 < n <= |s|
    ensures ValueTo(s, n) * Pow2(8 - r) == 256 * ValueTo(t, n) + (s[n - 1] * Pow2(8 - r)) % 256
  {
    var q, b := Pow2(8 - r), s[n - 1];
    OrOfParts(if n == 1 then 0 else s[n - 2], b, 8 - r);
    if n > 1 {
      ShrPrefix(s, t, r, n - 1);
      ScaleSum(ValueTo(s, n - 1), b, q);
    }
  }

  lemma ScaleSum(v: int, b: int, q: int)
    ensures (256 * v + b) * q == 256 * (v * q) + b * q
  {
    Distribute(256 * v, b, q);
    MulAssoc(256, v, q);
  }

  // ----- the passes of the shift macros

  method Clear(ba: array<Byte>)
    modifies ba
    ensures ba[..] == Zeros(ba.Length)
  {
    for i := 0 to ba.Length
      invariant forall j :: 0 <= j < i ==> ba[j] == 0
    {
      ba[i] := 0;
    }
  }

  method MoveBytesLeft(ba: array<Byte>, chars: nat)
    requires chars <= ba.Length
    modifies ba
    ensures ba[..] == old(ba[..])[chars..] + Zeros(chars)
  {
    var n := ba.Length;
    var index := 0;
    while index + chars < n
      invariant 0 <= index <= n - chars
      invariant forall i :: 0 <= i < index ==> ba[i] == old(ba[i + chars])
      invariant forall i :: index <= i < n ==> ba[i] == old(ba[i])
    {
      ba[index] := ba[index + chars];
      index := index + 1;
    }
    ClearLast(ba, chars);
  }

  method ClearLast(ba: array<Byte>, chars: nat)
    requires chars <= ba.Length
    modifies ba
    ensures forall i :: ba.Length - chars <= i < ba.Length ==> ba[i] == 0
    ensures forall i :: 0 <= i < ba.Length - chars ==> ba[i] == old(ba[i])
  {
    var n, c := ba.Length, chars;
    while c > 0
      invariant 0 <= c <= chars
      invariant forall i :: 0 <= i < n - chars ==> ba[i] == old(ba[i])
      invariant forall i :: n - chars <= i < n - c ==> ba[i] == 0
    {
      ba[n - c] := 0;
      c := c - 1;
    }
  }

  method MoveBitsLeft(ba: array<Byte>, r: nat)
    requires 0 < r < 8 && ba.Length > 0
    modifies ba
    ensures ShlBytes(old(ba[..]), ba[..], r)
  {
    var n := ba.Length;
    var index := 0;
    while index + 1 < n
      invariant 0 <= index < n
      invariant forall i :: 0 <= i < index ==> ba[i] == ShlByte(old(ba[i]), old(ba[i + 1]), r)
      invariant forall i :: index <= i < n ==> ba[i] == old(ba[i])
    {
      ba[index] := ShlByte(ba[index], ba[index + 1], r);
      index := index + 1;
    }
    ba[index] := ShlByte(ba[index], 0, r);
  }

  method MoveBytesRight(ba: array<Byte>, chars: nat)
    requires chars <= ba.Length
    modifies ba
    ensures ba[..] == Zeros(chars) + old(ba[..])[..ba.Length - chars]
  {
    var n := ba.Length;
    var index := n - 1;
    while index - chars >= 0
      invariant chars - 1 <= index < n
      invariant forall i :: index < i < n ==> ba[i] == old(ba[i - chars])
      invariant forall i :: 0 <= i <= index ==> ba[i] == old(ba[i])
    {
      ba[index] := ba[index - chars];
      index := index - 1;
    }
    ClearFirst(ba, chars);
  }

  method ClearFirst(ba: array<Byte>, chars: nat)
    requires chars <= ba.Length
    modifies ba
    ensures forall i :: 0 <= i < chars ==> ba[i] == 0
    ensures forall i :: chars <= i < ba.Length ==> ba[i] == old(ba[i])
  {
    var c := chars;
    while c > 0
      invariant 0 <= c <= chars
      invariant forall i :: chars <= i < ba.Length ==> ba[i] == old(ba[i])
      invariant forall i :: c <= i < chars ==> ba[i] == 0
    {
      ba[c - 1] := 0;
      c := c - 1;
    }
  }

  method MoveBitsRight(ba: array<Byte>, r: nat)
    requires 0 < r < 8 && ba.Length > 0
    modifies ba
    ensures ShrBytes(old(ba[..]), ba[..], r)
  {
    var n := ba.Length;
    var index := n - 1;
    while index - 1 >= 0
      invariant 0 <= index < n
      invariant forall i :: index < i < n ==> ba[i] == ShrByte(old(ba[i - 1]), old(ba[i]), r)
      invariant forall i :: 0 <= i <= index ==> ba[i] == old(ba[i])
    {
      ba[index] := ShrByte(ba[index - 1], ba[index], r);
      index := index - 1;
    }
    ba[0] := ShrByte(0, ba[0], r);
  }

  // ----- the macros

  /** JF_BITARRAY_LSHIFT: the integer is multiplied by 2^shift, bits beyond the array being dropped. */
  method LShift(ba: array<Byte>, shift: nat)
    requires shift > 0
    modifies ba
    ensures Value(ba[..]) == (Value(old(ba[..])) * Pow2(shift)) % Range(ba.Length)
  {
    if shift >= 8 * ba.Length {
      Clear(ba);
      ValueZeros(ba[..], ba.Length);
      AllShiftedOut(old(ba[..]), shift);
    } else {
      var chars, remain := shift / 8, shift % 8;
      if chars > 0 { MoveBytesLeft(ba, chars); }
      ghost var t := ba[..];
      assert t == old(ba[..])[chars..] + Zeros(chars);
      if remain > 0 { MoveBitsLeft(ba, remain); }
      LShiftCorrect(old(ba[..]), t, ba[..], chars, remain);
    }
  }

  /** JF_BITARRAY_RSHIFT: the integer is divided by 2^shift, rounding down. */
  method RShift(ba: array<Byte>, shift: nat)
    requires shift > 0
    modifies ba
    ensures Value(ba[..]) == Value(old(ba[..])) / Pow2(shift)
  {
    if shift >= 8 * ba.Length {
      Clear(ba);
      ValueZeros(ba[..], ba.Length);
      AllShiftedOut(old(ba[..]), shift);
    } else {
      var chars, remain := shift / 8, shift % 8;
      if chars > 0 { MoveBytesRight(ba, chars); }
      ghost var t := ba[..];
      assert t == Zeros(chars) + old(ba[..])[..ba.Length - chars];
      if remain > 0 { MoveBitsRight(ba, remain); }
      RShiftCorrect(old(ba[..]), t, ba[..], chars, remain);
    }
  }

  lemma RangeAdd(a: nat, b: nat)
    ensures Range(a) * Range(b) == Range(a + b)
  {
    Pow2Add(8 * a, 8 * b);
  }

  lemma MoveBytesLeftValue(s: seq<Byte>, t: seq<Byte>, c: nat) returns (hi: nat)
    requires c <= |s| && t == s[c..] + Zeros(c)
    ensures Value(s) * Range(c) == hi * Range(|s|) + Value(t)
  {
    var n := |s| - c;
    hi := ValueTo(s, c);
    ValueWindow(s, t, c, n);
    ValueWindow(t, Zeros(c), n, c);
    ValueZeros(Zeros(c), c);
    RangeAdd(n, c);
    ScaleWindow(hi, Range(n), ValueTo(t, n), Range(c));
  }

  lemma ScaleWindow(hi: int, m: int, w: int, c: int)
    ensures (hi * m + w) * c == hi * (m * c) + w * c
  {
    Distribute(hi * m, w, c);
    MulAssoc(hi, m, c);
  }

  lemma LeftPasses(v: int, c: int, p: int, hi: int, m: int, w: int, out: int, u: int)
    requires v * c == hi * m + w && w * p == out * m + u
    ensures v * (c * p) == m * (hi * p + out) + u
  {
    MulAssoc(v, c, p);
    Distribute(hi * m, w, p);
    MulAssoc(hi, m, p);
    Distribute(hi * p, out, m);
  }

  /** The two passes of a left shift compute the product by 2^shift modulo the range of the array. */
  lemma LShiftCorrect(s: seq<Byte>, t: seq<Byte>, u: seq<Byte>, c: nat, r: nat)
    requires c <= |s| && r < 8 && |s| == |u| && t == s[c..] + Zeros(c)
    requires if r == 0 then u == t else ShlBytes(t, u, r)
    ensures Value(u) == (Value(s) * Pow2(8 * c + r)) % Range(|s|)
  {
    var hi := MoveBytesLeftValue(s, t, c);
    var out := 0;
    if r > 0 { out := ShlBytesValue(t, u, r); }
    Pow2Add(8 * c, r);
    LeftPasses(Value(s), Range(c), Pow2(r), hi, Range(|s|), Value(t), out, Value(u));
    ValueBound(u, |u|);
    DivModUnique(Value(s) * Pow2(8 * c + r), Range(|s|), hi * Pow2(r) + out, Value(u));
  }

  lemma MoveBytesRightValue(s: seq<Byte>, t: seq<Byte>, c: nat) returns (low: nat)
    requires c <= |s| && t == Zeros(c) + s[..|s| - c]
    ensures Value(s) == Value(t) * Range(c) + low && low < Range(c)
  {
    var n := |s| - c;
    ValueWindow(s, s[n..], n, c);
    ValueWindow(t, s, c, n);
    ValueZeros(t, c);
    ValueBound(s[n..], c);
    low := ValueTo(s[n..], c);
  }

  lemma DivideOut(v: int, p: int, q: int, u: int, r: int)
    requires q > 0 && v * q == (p * q) * u + r * q
    ensures v == p * u + r
  {
    MulAssoc(p, q, u);
    Distribute(p * u, r, q);
    Distribute(v, p * u + r, q);
    var d := v - (p * u + r);
    assert d * q == 0;
    if d >= 1 { MulAtLeast(q, d); } else if d <= -1 { MulAtLeast(q, -d); }
  }

  lemma ShrBytesValue(s: seq<Byte>, t: seq<Byte>, r: nat) returns (lost: nat)
    requires ShrBytes(s, t, r)
    ensures Value(s) == Pow2(r) * Value(t) + lost && lost < Pow2(r)
  {
    lost := s[|s| - 1] % Pow2(r);
    ShrPrefix(s, t, r, |s|);
    ByteParts(s[|s| - 1], 8 - r);
    Pow2Add(r, 8 - r);
    Pow2Small();
    DivideOut(Value(s), Pow2(r), Pow2(8 - r), Value(t), lost);
  }

  lemma RightPasses(v: int, w: int, u: int, p: int, c: int, lost: int, low: int)
    requires v == w * c + low && w == p * u + lost && 0 <= lost < p && 0 <= low < c
    ensures v == (c * p) * u + (lost * c + low) && 0 <= lost * c + low < c * p
  {
    Distribute(p * u, lost, c);
    MulAssoc(p, u, c);
    MulMono(lost, p - 1, c);
    Distribute(p, 1, c);
    MulMono(0, lost, c);
  }

  /** The two passes of a right shift compute the quotient by 2^shift. */
  lemma RShiftCorrect(s: seq<Byte>, t: seq<Byte>, u: seq<Byte>, c: nat, r: nat)
    requires c <= |s| && r < 8 && |s| == |u| && t == Zeros(c) + s[..|s| - c]
    requires if r == 0 then u == t else ShrBytes(t, u, r)
    ensures Value(u) == Value(s) / Pow2(8 * c + r)
  {
    var low := MoveBytesRightValue(s, t, c);
    var lost := 0;
    if r > 0 { lost := ShrBytesValue(t, u, r); }
    Pow2Add(8 * c, r);
    RightPasses(Value(s), Value(t), Value(u), Pow2(r), Range(c), lost, low);
    DivModUnique(Value(s), Pow2(8 * c + r), Value(u), lost * Range(c) + low);
  }

  lemma AllShiftedOut(s: seq<Byte>, shift: nat)
    requires shift >= 8 * |s|
    ensures (Value(s) * Pow2(shift)) % Range(|s|) == 0 && Value(s) / Pow2(shift) == 0
  {
    var m, d := Range(|s|), Pow2(shift - 8 * |s|);
    ValueBound(s, |s|);
    Pow2Add(8 * |s|, shift - 8 * |s|);
    Pow2Mono(8 * |s|, shift);
    MulAssoc(Value(s), m, d);
    MultipleMod(Value(s) * d, m);
    DivModUnique(Value(s), Pow2(shift), 0, Value(s));
  }

  /** JF_BITARRAY_INCREMENT: plus one modulo the range of the array. */
  method Increment(ba: array<Byte>)
    modifies ba
    ensures Value(ba[..]) == (Value(old(ba[..])) + 1) % Range(ba.Length)
  {
    ghost var s := ba[..];
    var index := ba.Length - 1;
    while index >= 0
      invariant -1 <= index < ba.Length
      invariant forall i :: 0 <= i <= index ==> ba[i] == s[i]
      invariant forall i :: index < i < ba.Length ==> s[i] == 255 && ba[i] == 0
    {
      if ba[index] != 255 {
        ba[index] := ba[index] + 1;
        CarryInto(s, ba[..], index, ba.Length);
        ValueBound(ba[..], ba.Length);
        DivModUnique(Value(ba[..]), Range(ba.Length), 0, Value(ba[..]));
        return;
      }
      ba[index] := 0;
      index := index - 1;
    }
    ValueZeros(ba[..], ba.Length);
    ValueOnes(s, ba.Length);
    DivModUnique(Range(ba.Length), Range(ba.Length), 1, 0);
  }

  /** JF_BITARRAY_DECREMENT: minus one modulo the range of the array. */
  method Decrement(ba: array<Byte>)
    modifies ba
    ensures Value(ba[..]) == (Value(old(ba[..])) - 1) % Range(ba.Length)
  {
    ghost var s := ba[..];
    var index := ba.Length - 1;
    while index >= 0
      invariant -1 <= index < ba.Length
      invariant forall i :: 0 <= i <= index ==> ba[i] == s[i]
      invariant forall i :: index < i < ba.Length ==> s[i] == 0 && ba[i] == 255
    {
      if ba[index] >= 1 {
        ba[index] := ba[index] - 1;
        CarryInto(ba[..], s, index, ba.Length);
        ValueBound(ba[..], ba.Length);
        DivModUnique(Value(ba[..]), Range(ba.Length), 0, Value(ba[..]));
        return;
      }
      ba[index] := 255;
      index := index - 1;
    }
    ValueZeros(s, ba.Length);
    ValueOnes(ba[..], ba.Length);
    DivModUnique(-1, Range(ba.Length), -1, Range(ba.Length) - 1);
  }

  /** A value ending in 0xFF bytes is one less than the value with the carry propagated past them. */
  lemma {:induction false} CarryInto(s: seq<Byte>, t: seq<Byte>, index: nat, n: nat)
    requires |s| == |t| && index < n <= |s|
    requires t[index] as int == s[index] as int + 1 && forall i :: 0 <= i < index ==> t[i] == s[i]
    requires forall i :: index < i < n ==> s[i] == 255 && t[i] == 0
    ensures ValueTo(t, n) == ValueTo(s, n) + 1
  {
    if n == index + 1 {
      ValueToSame(s, t, index);
    } else {
      CarryInto(s, t, index, n - 1);
    }
  }

  lemma {:induction false} ValueOnes(s: seq<Byte>, n: nat)
    requires n <= |s| && forall i :: 0 <= i < n ==> s[i] == 255
    ensures ValueTo(s, n) + 1 == Range(n)
  {
    if n > 0 {
      ValueOnes(s, n - 1);
      RangeStep(n - 1);
    }
  }

  function WithLowBit(b: Byte): (r: Byte)
    ensures r == if b % 2 == 0 then b + 1 else b
  {
    BitOrOne(b);
    BitOr(b, 1)
  }

  /** jf_bitarray_setBit(ba, pos) for the last bit of the array. */
  method SetLastBit(ba: array<Byte>)
    requires ba.Length > 0
    modifies ba
    ensures var v := Value(old(ba[..])); Value(ba[..]) == if v % 2 == 0 then v + 1 else v
  {
    ghost var s := ba[..];
    var last := ba.Length - 1;
    ba[last] := WithLowBit(ba[last]);
    ValueToSame(s, ba[..], last);
    Parity(ValueTo(s, last), s[last]);
  }

  lemma Parity(v: int, b: int)
    ensures (256 * v + b) % 2 == b % 2
  {
  }
}
