/** Bit fields of a machine word (jiutai/jf_bitop.h) and the page word of the buddy allocator (jiukun/buddy.h). */
module PageWord {
  import opened Bits

  const WIDTH: nat := 64

  ghost predicate IsWord(w: nat) {
    w < Pow2(WIDTH)
  }

  /** JF_BITOP_MASK */
  function Mask(left: nat, right: nat): nat
    requires right <= left
  {
    ShiftL(Pow2(left - right + 1) - 1, right)
  }

  /** JF_BITOP_GET */
  function GetField(word: nat, left: nat, right: nat): nat
    requires right <= left
  {
    BitAnd(ShiftR(word, right), Mask(left - right, 0))
  }

  /** ~ on a word */
  function Complement(x: nat): nat {
    if x < Pow2(WIDTH) then Pow2(WIDTH) - 1 - x else 0
  }

  /** JF_BITOP_SET */
  function SetField(word: nat, left: nat, right: nat, value: nat): nat
    requires right <= left
  {
    BitOr(BitAnd(word, Complement(Mask(left, right))), ShiftL(BitAnd(value, Mask(left - right, 0)), right))
  }

  // ----- words as bits

  predicate Bit(x: nat, i: nat) {
    if i == 0 then x % 2 == 1 else Bit(x / 2, i - 1)
  }

  lemma {:induction false} ZeroBit(i: nat)
    ensures !Bit(0, i)
  {
    if i > 0 { ZeroBit(i - 1); }
  }

  lemma {:induction false} AndBit(x: nat, y: nat, i: nat)
    ensures Bit(BitAnd(x, y), i) <==> Bit(x, i) && Bit(y, i)
    decreases i
  {
    if x == 0 || y == 0 {
      ZeroBit(i);
    } else if i > 0 {
      AndBit(x / 2, y / 2, i - 1);
    }
  }

  lemma {:induction false} OrBit(x: nat, y: nat, i: nat)
    ensures Bit(BitOr(x, y), i) <==> Bit(x, i) || Bit(y, i)
    decreases i
  {
    if x == 0 && y == 0 {
      ZeroBit(i);
    } else if i > 0 {
      OrBit(x / 2, y / 2, i - 1);
    }
  }

  lemma {:induction false} ShiftRBit(x: nat, k: nat, i: nat)
    ensures Bit(ShiftR(x, k), i) <==> Bit(x, i + k)
  {
    if k > 0 { ShiftRBit(x / 2, k - 1, i); }
  }

  lemma {:induction false} ShiftLBit(x: nat, k: nat, i: nat)
    ensures Bit(ShiftL(x, k), i) <==> i >= k && Bit(x, i - k)
    decreases k
  {
    if k > 0 && i > 0 { ShiftLBit(x, k - 1, i - 1); }
  }

  lemma {:induction false} OnesBit(n: nat, i: nat)
    ensures Bit(Pow2(n) - 1, i) <==> i < n
    decreases n
  {
    if n == 0 {
      ZeroBit(i);
    } else if i > 0 {
      assert (Pow2(n) - 1) / 2 == Pow2(n - 1) - 1;
      OnesBit(n - 1, i - 1);
    }
  }

  lemma {:induction false} FlipBit(n: nat, x: nat, i: nat)
    requires x < Pow2(n)
    ensures Bit(Pow2(n) - 1 - x, i) <==> i < n && !Bit(x, i)
    decreases n
  {
    if n == 0 {
      ZeroBit(i);
    } else if i > 0 {
      assert (Pow2(n) - 1 - x) / 2 == Pow2(n - 1) - 1 - x / 2;
      FlipBit(n - 1, x / 2, i - 1);
    }
  }

  lemma MaskBit(left: nat, right: nat, i: nat)
    requires right <= left
    ensures Bit(Mask(left, right), i) <==> right <= i <= left
  {
    hide Bit, ShiftL;
    ShiftLBit(Pow2(left - right + 1) - 1, right, i);
    if i >= right { OnesBit(left - right + 1, i - right); }
  }

  /** A number is its bits. */
  lemma {:induction false} SameBits(x: nat, y: nat)
    requires forall i: nat :: Bit(x, i) <==> Bit(y, i)
    ensures x == y
    decreases x + y
  {
    assert Bit(x, 0) <==> Bit(y, 0);
    if x > 0 || y > 0 {
      forall i: nat ensures Bit(x / 2, i) <==> Bit(y / 2, i) {
        assert Bit(x, i + 1) <==> Bit(y, i + 1);
      }
      SameBits(x / 2, y / 2);
    }
  }

  lemma {:induction false} HighBitsClear(x: nat, n: nat)
    requires forall i: nat :: i >= n ==> !Bit(x, i)
    ensures x < Pow2(n)
    decreases x
  {
    if n == 0 {
      forall i: nat ensures Bit(x, i) <==> Bit(0, i) { ZeroBit(i); }
      SameBits(x, 0);
    } else if x > 0 {
      forall i: nat | i >= n - 1 ensures !Bit(x / 2, i) {
        assert !Bit(x, i + 1);
      }
      HighBitsClear(x / 2, n - 1);
    }
  }

  lemma {:induction false} BitBelow(x: nat, n: nat, i: nat)
    requires x < Pow2(n) && Bit(x, i)
    ensures i < n
    decreases n
  {
    if n == 0 {
      ZeroBit(i);
    } else if i > 0 {
      BitBelow(x / 2, n - 1, i - 1);
    }
  }

  // ----- fields

  lemma GetBit(word: nat, left: nat, right: nat, i: nat)
    requires right <= left
    ensures Bit(GetField(word, left, right), i) <==> i <= left - right && Bit(word, i + right)
  {
    hide Bit, BitAnd, ShiftR, Mask;
    AndBit(ShiftR(word, right), Mask(left - right, 0), i);
    ShiftRBit(word, right, i);
    MaskBit(left - right, 0, i);
  }

  lemma MaskIsWord(left: nat, right: nat)
    requires right <= left < WIDTH
    ensures IsWord(Mask(left, right))
  {
    hide Bit, Mask, Pow2;
    forall i: nat | i >= WIDTH ensures !Bit(Mask(left, right), i) { MaskBit(left, right, i); }
    HighBitsClear(Mask(left, right), WIDTH);
  }

  /** Bit for bit, a set replaces the field and nothing else. */
  lemma SetBit(word: nat, left: nat, right: nat, value: nat, i: nat)
    requires right <= left < WIDTH && IsWord(word)
    ensures Bit(SetField(word, left, right, value), i) <==> if right <= i <= left then Bit(value, i - right) else Bit(word, i)
  {
    hide Bit, BitAnd, BitOr, ShiftL, Mask, Pow2;
    var m, low := Mask(left, right), BitAnd(value, Mask(left - right, 0));
    MaskIsWord(left, right);
    OrBit(BitAnd(word, Complement(m)), ShiftL(low, right), i);
    AndBit(word, Complement(m), i);
    FlipBit(WIDTH, m, i);
    MaskBit(left, right, i);
    ShiftLBit(low, right, i);
    if i >= right {
      AndBit(value, Mask(left - right, 0), i - right);
      MaskBit(left - right, 0, i - right);
    }
    if Bit(word, i) { BitBelow(word, WIDTH, i); }
  }

  lemma SetIsWord(word: nat, left: nat, right: nat, value: nat)
    requires right <= left < WIDTH && IsWord(word)
    ensures IsWord(SetField(word, left, right, value))
  {
    hide Bit, SetField, Pow2;
    forall i: nat | i >= WIDTH ensures !Bit(SetField(word, left, right, value), i) {
      SetBit(word, left, right, value, i);
      if Bit(word, i) { BitBelow(word, WIDTH, i); }
    }
    HighBitsClear(SetField(word, left, right, value), WIDTH);
  }

  /** A field reads back what was written to it, if that fits. */
  lemma GetAfterSet(word: nat, left: nat, right: nat, value: nat)
    requires right <= left < WIDTH && IsWord(word)
    ensures GetField(SetField(word, left, right, value), left, right) == GetField(value, left - right, 0)
    ensures value < Pow2(left - right + 1) ==> GetField(SetField(word, left, right, value), left, right) == value
  {
    hide Bit, SetField, GetField, Pow2;
    var w, n := SetField(word, left, right, value), left - right + 1;
    forall i: nat
      ensures Bit(GetField(w, left, right), i) <==> Bit(GetField(value, left - right, 0), i)
      ensures value < Pow2(n) ==> (Bit(GetField(w, left, right), i) <==> Bit(value, i))
    {
      GetBit(w, left, right, i);
      GetBit(value, left - right, 0, i);
      SetBit(word, left, right, value, i + right);
      if value < Pow2(n) && Bit(value, i) { BitBelow(value, n, i); }
    }
    SameBits(GetField(w, left, right), GetField(value, left - right, 0));
    if value < Pow2(n) { SameBits(GetField(w, left, right), value); }
  }

  /** Writing a field leaves every field it does not overlap as it was. */
  lemma OtherFieldKept(word: nat, left: nat, right: nat, value: nat, l: nat, r: nat)
    requires right <= left < WIDTH && IsWord(word) && r <= l && (l < right || left < r)
    ensures GetField(SetField(word, left, right, value), l, r) == GetField(word, l, r)
  {
    hide Bit, SetField, GetField, Pow2;
    var w := SetField(word, left, right, value);
    forall i: nat ensures Bit(GetField(w, l, r), i) <==> Bit(GetField(word, l, r), i) {
      GetBit(w, l, r, i);
      GetBit(word, l, r, i);
      SetBit(word, left, right, value, i + r);
    }
    SameBits(GetField(w, l, r), GetField(word, l, r));
  }

  // ----- the page word of jiukun/buddy.h

  datatype Marks = Marks(isAllocated: bool, isSlab: bool, order: nat, zone: nat)

  function MarksOf(w: nat): Marks {
    Marks(GetField(w, 0, 0) != 0, GetField(w, 1, 1) != 0, GetField(w, 55, 48), GetField(w, 63, 56))
  }

  /** Each setter of the page word changes its own mark and no other. */
  lemma SetMarks(w: nat, value: nat)
    requires IsWord(w) && value < 256
    ensures IsWord(SetField(w, 0, 0, value % 2)) && MarksOf(SetField(w, 0, 0, value % 2)) == MarksOf(w).(isAllocated := value % 2 == 1)
    ensures IsWord(SetField(w, 1, 1, value % 2)) && MarksOf(SetField(w, 1, 1, value % 2)) == MarksOf(w).(isSlab := value % 2 == 1)
    ensures IsWord(SetField(w, 55, 48, value)) && MarksOf(SetField(w, 55, 48, value)) == MarksOf(w).(order := value)
    ensures IsWord(SetField(w, 63, 56, value)) && MarksOf(SetField(w, 63, 56, value)) == MarksOf(w).(zone := value)
  {
    hide SetField, GetField, Pow2;
    Pow2Small();
    SetOneMark(w, 0, 0, value % 2);
    SetOneMark(w, 1, 1, value % 2);
    SetOneMark(w, 55, 48, value);
    SetOneMark(w, 63, 56, value);
  }

  lemma SetOneMark(w: nat, left: nat, right: nat, value: nat)
    requires IsWord(w) && right <= left < WIDTH && value < Pow2(left - right + 1)
    ensures IsWord(SetField(w, left, right, value)) && GetField(SetField(w, left, right, value), left, right) == value
    ensures forall l, r :: 0 <= r <= l && (l < right || left < r) ==> GetField(SetField(w, left, right, value), l, r) == GetField(w, l, r)
  {
    hide SetField, GetField, Pow2;
    SetIsWord(w, left, right, value);
    GetAfterSet(w, left, right, value);
    forall l, r | 0 <= r <= l && (l < right || left < r) ensures GetField(SetField(w, left, right, value), l, r) == GetField(w, l, r) {
      OtherFieldKept(w, left, right, value, l, r);
    }
  }

  lemma {:induction false} ShiftRZero(k: nat)
    ensures ShiftR(0, k) == 0
  {
    if k > 0 { ShiftRZero(k - 1); }
  }

  lemma ZeroWord()
    ensures IsWord(0) && MarksOf(0) == Marks(false, false, 0, 0)
  {
    hide ShiftR, Mask;
    ShiftRZero(0);
    ShiftRZero(1);
    ShiftRZero(48);
    ShiftRZero(56);
  }
}
