/**
  The two bit-field templates of the binary format. They shift and mask 32-bit
  machine words; the arena reads the same fields as quotients and remainders of
  the number a word stands for. This module proves that the two agree.
 */
module Bitfields {
  import opened Numbers

  function Mask(pos: nat, width: nat): bv32
    requires width < 32 && pos + width <= 32
  {
    (((1 as bv32) << width) - 1) << pos
  }

  function GetBits(val: bv32, pos: nat, width: nat): bv32
    requires width < 32 && pos + width <= 32
  {
    (val & Mask(pos, width)) >> pos
  }

  /** Assignment to either template: nothing masks `t`, excess low-order positions would spill. */
  function SetBits(val: bv32, pos: nat, width: nat, t: bv32): bv32
    requires width < 32 && pos + width <= 32
  {
    (val & !Mask(pos, width)) | (t << pos)
  }

  /**
    The signed template at position 5, width 27, its only use: nothing lies above the
    field, so it is one arithmetic shift, which copies the sign bit.
   */
  function GetSignedValue(val: bv32): bv32 {
    if val & 0x8000_0000 == 0 then val >> 5 else (val >> 5) | 0xF800_0000
  }

  function LowBit(w: bv32): nat {
    if w & 1 == 1 then 1 else 0
  }
  function Half(w: bv32): bv32 { w >> 1 }

  function Halves(w: bv32, j: nat): bv32 {
    if j == 0 then w else Halves(Half(w), j - 1)
  }

  /** The number formed by the low `k` bits of a machine word. */
  function LowBits(w: bv32, k: nat): (n: nat)
    ensures n < Pow2(k)
  {
    if k == 0 then 0 else LowBit(w) + 2 * LowBits(Half(w), k - 1)
  }

  lemma {:induction false} SplitBits(w: bv32, k: nat, j: nat)
    requires j <= k
    ensures LowBits(w, k) == LowBits(w, j) + Pow2(j) * LowBits(Halves(w, j), k - j)
  {
    if j > 0 {
      var h, p := Half(w), Pow2(j - 1);
      SplitBits(h, k - 1, j - 1);
      Doubled(LowBit(w), LowBits(h, j - 1), p, LowBits(Halves(h, j - 1), k - j));
    }
  }

  lemma Doubled(b: nat, a: nat, p: nat, x: nat)
    ensures b + 2 * (a + p * x) == (b + 2 * a) + (2 * p) * x
  {
    assert 2 * (p * x) == (2 * p) * x;
  }

  lemma {:induction false} LowBitsOfZero(k: nat)
    ensures LowBits(0, k) == 0
  {
    if k > 0 {
      assert Half(0) == 0 && LowBit(0) == 0;
      LowBitsOfZero(k - 1);
    }
  }

  lemma {:induction false} SameLowBits(w: bv32, v: bv32, k: nat)
    requires forall j :: 0 <= j < k ==> LowBit(Halves(w, j)) == LowBit(Halves(v, j))
    ensures LowBits(w, k) == LowBits(v, k)
  {
    if k > 0 {
      assert Halves(w, 0) == w && Halves(v, 0) == v;
      forall j | 0 <= j < k - 1
        ensures LowBit(Halves(Half(w), j)) == LowBit(Halves(Half(v), j))
      {
        assert Halves(Half(w), j) == Halves(w, j + 1);
        assert Halves(Half(v), j) == Halves(v, j + 1);
      }
      SameLowBits(Half(w), Half(v), k - 1);
    }
  }

  lemma HalvesByShift(w: bv32)
    ensures Halves(w, 0) == w
    ensures Halves(w, 1) == w >> 1
    ensures Halves(w, 2) == w >> 2
    ensures Halves(w, 3) == w >> 3
    ensures Halves(w, 4) == w >> 4
    ensures Halves(w, 5) == w >> 5
  {
    var w1, w2, w3, w4, w5 := w >> 1, w >> 2, w >> 3, w >> 4, w >> 5;
    assert Half(w) == w1 && Half(w1) == w2 && Half(w2) == w3 && Half(w3) == w4 && Half(w4) == w5;
    Unroll(w, 5);
    Unroll(w, 4);
    Unroll(w, 3);
    Unroll(w, 2);
    Unroll(w, 1);
  }

  lemma {:induction false} Unroll(w: bv32, j: nat)
    requires j > 0
    ensures Halves(w, j) == Half(Halves(w, j - 1))
  {
    if j > 1 {
      Unroll(Half(w), j - 1);
    }
  }

  lemma {:induction false} HalvesAdd(w: bv32, a: nat, b: nat)
    ensures Halves(w, a + b) == Halves(Halves(w, a), b)
  {
    if a > 0 {
      HalvesAdd(Half(w), a - 1, b);
    }
  }

  lemma NothingAbove32(w: bv32)
    ensures Halves(w, 32) == 0
  {
    var a := w >> 5;
    var b := a >> 5;
    var c := b >> 5;
    var d := c >> 5;
    var e := d >> 5;
    var f := e >> 5;
    HalvesByShift(w);
    HalvesByShift(a);
    HalvesByShift(b);
    HalvesByShift(c);
    HalvesByShift(d);
    HalvesByShift(e);
    HalvesByShift(f);
    HalvesAdd(w, 5, 5);
    HalvesAdd(w, 10, 5);
    HalvesAdd(w, 15, 5);
    HalvesAdd(w, 20, 5);
    HalvesAdd(w, 25, 5);
    HalvesAdd(w, 30, 2);
    assert f >> 2 == 0;
  }

  lemma NothingAbove(w: bv32, k: nat, n: nat)
    requires k <= n && Halves(w, k) == 0
    ensures LowBits(w, n) == LowBits(w, k)
  {
    SplitBits(w, n, k);
    LowBitsOfZero(n - k);
    assert Pow2(k) * 0 == 0;
  }

  lemma {:induction false} HalvesOfZero(k: nat)
    ensures Halves(0, k) == 0
  {
    if k > 0 {
      assert Half(0) == 0;
      HalvesOfZero(k - 1);
    }
  }

  lemma NothingBeyond(w: bv32, n: nat)
    requires n >= 32
    ensures Halves(w, n) == 0
  {
    NothingAbove32(w);
    HalvesAdd(w, 32, n - 32);
    HalvesOfZero(n - 32);
  }

  /** Dropping the low `k` bits divides; it does not matter that zeros come in at the top. */
  lemma NatOfHalves(w: bv32, k: nat, n: nat)
    requires k <= 32 <= n
    ensures LowBits(w, n) == LowBits(w, k) + Pow2(k) * LowBits(Halves(w, k), n)
  {
    NothingBeyond(w, n);
    NothingAbove(w, n, n + k);
    SplitBits(w, n + k, k);
  }

  lemma NatOfMasked(w: bv32, v: bv32, k: nat, n: nat)
    requires k <= 32 <= n && Halves(v, k) == 0
    requires forall j :: 0 <= j < k ==> LowBit(Halves(w, j)) == LowBit(Halves(v, j))
    ensures LowBits(v, n) == LowBits(w, k)
  {
    NothingAbove(v, k, n);
    SameLowBits(w, v, k);
  }

  lemma LowThree(w: bv32, n: nat)
    requires n >= 32
    ensures LowBits(w & 7, n) == LowBits(w, 3)
  {
    var v := w & 7;
    HalvesByShift(w);
    HalvesByShift(v);
    assert v >> 3 == 0;
    assert LowBit(v) == LowBit(w) && LowBit(v >> 1) == LowBit(w >> 1) && LowBit(v >> 2) == LowBit(w >> 2);
    NatOfMasked(w, v, 3, n);
  }

  lemma LowOne(w: bv32, n: nat)
    requires n >= 32
    ensures LowBits(w & 1, n) == LowBits(w, 1)
  {
    var v := w & 1;
    HalvesByShift(w);
    HalvesByShift(v);
    assert v >> 1 == 0;
    assert LowBit(v) == LowBit(w);
    NatOfMasked(w, v, 1, n);
  }

  lemma ShiftedByOne(w: bv32, n: nat)
    requires n >= 32
    ensures LowBits(w, n) / 2 == LowBits(w >> 1, n) && LowBits(w, n) % 2 == LowBits(w, 1)
  {
    assert Pow2(1) == 2;
    HalvesByShift(w);
    NatOfHalves(w, 1, n);
  }

  lemma ShiftedByThree(w: bv32, n: nat)
    requires n >= 32
    ensures LowBits(w, n) / 8 == LowBits(w >> 3, n) && LowBits(w, n) % 8 == LowBits(w, 3)
  {
    assert Pow2(1) == 2 && Pow2(2) == 4 && Pow2(3) == 8;
    HalvesByShift(w);
    NatOfHalves(w, 3, n);
  }

  lemma ShiftedByFive(w: bv32, n: nat)
    requires n >= 32
    ensures LowBits(w, n) / 32 == LowBits(w >> 5, n) && LowBits(w, n) % 32 == LowBits(w, 5)
  {
    assert Pow2(1) == 2 && Pow2(2) == 4 && Pow2(3) == 8;
    assert Pow2(4) == 16 && Pow2(5) == 32;
    HalvesByShift(w);
    NatOfHalves(w, 5, n);
  }

  lemma Masks()
    ensures Mask(0, 3) == 7
    ensures Mask(3, 1) == 8
    ensures Mask(5, 27) == 0xFFFF_FFE0
    ensures Mask(0, 1) == 1
    ensures Mask(1, 31) == 0xFFFF_FFFE
  {}

  lemma GetLength(w: bv32)
    ensures GetBits(w, 0, 1) == w & 1
    ensures GetBits(w, 1, 31) == w >> 1
  {
    Masks();
  }

  lemma GetType(w: bv32)
    ensures GetBits(w, 0, 3) == w & 7
    ensures GetBits(w, 3, 1) == (w >> 3) & 1
  {
    Masks();
  }

  lemma GetValue(w: bv32)
    ensures GetBits(w, 5, 27) == w >> 5
  {
    Masks();
  }

  lemma LengthIsArithmetic(w: bv32, n: nat)
    requires n >= 32
    ensures LowBits(GetBits(w, 0, 1), n) == LowBits(w, n) % 2
    ensures LowBits(GetBits(w, 1, 31), n) == LowBits(w, n) / 2
  {
    GetLength(w);
    ShiftedByOne(w, n);
    LowOne(w, n);
  }

  lemma TypeIsArithmetic(w: bv32, n: nat)
    requires n >= 32
    ensures LowBits(GetBits(w, 0, 3), n) == TypeField(LowBits(w, n))
    ensures LowBits(GetBits(w, 3, 1), n) == IntField(LowBits(w, n))
  {
    GetType(w);
    ShiftedByThree(w, n);
    LowThree(w, n);
    ShiftedByOne(w >> 3, n);
    LowOne(w >> 3, n);
  }

  /**
    What the arena reads as arithmetic on the number of a word is what the templates
    read as bits of the word (its 32 bits, or any `n` that covers them).
   */
  lemma FieldsAreArithmetic(w: bv32, n: nat)
    requires n >= 32
    ensures LowBits(GetBits(w, 0, 3), n) == TypeField(LowBits(w, n))
    ensures LowBits(GetBits(w, 3, 1), n) == IntField(LowBits(w, n))
    ensures LowBits(GetBits(w, 5, 27), n) == ValueField(LowBits(w, n))
    ensures LowBits(GetBits(w, 0, 1), n) == LowBits(w, n) % 2
    ensures LowBits(GetBits(w, 1, 31), n) == LowBits(w, n) / 2
  {
    LengthIsArithmetic(w, n);
    TypeIsArithmetic(w, n);
    GetValue(w);
    ShiftedByFive(w, n);
  }

  lemma SetValue(w: bv32, t: bv32)
    ensures SetBits(w, 5, 27, t) == (w & 31) | (t << 5)
  {
    Masks();
  }

  lemma SetValueBits(w: bv32, t: bv32)
    ensures ((w & 31) | (t << 5)) & 31 == w & 31
    ensures ((w & 31) | (t << 5)) >> 5 == t & 0x7FF_FFFF
    ensures ((w & 31) | (t << 5)) & 7 == w & 7
    ensures (((w & 31) | (t << 5)) >> 3) & 1 == (w >> 3) & 1
  {}

  lemma SignExtension(w: bv32, t: bv32)
    requires w >> 5 == t & 0x7FF_FFFF
    requires t & 0xFC00_0000 == 0 || t & 0xFC00_0000 == 0xFC00_0000
    ensures GetSignedValue(w) == t
  {
    SignBit(w, t);
    if t & 0xFC00_0000 == 0 {
      PlainLow(t);
    } else {
      PlainHigh(t);
    }
  }

  lemma SignBit(w: bv32, t: bv32)
    requires w >> 5 == t & 0x7FF_FFFF
    ensures w & 0x8000_0000 == 0 <==> t & 0x400_0000 == 0
  {}

  lemma PlainLow(t: bv32)
    requires t & 0xFC00_0000 == 0
    ensures t & 0x7FF_FFFF == t && t & 0x400_0000 == 0
  {}

  lemma PlainHigh(t: bv32)
    requires t & 0xFC00_0000 == 0xFC00_0000
    ensures (t & 0x7FF_FFFF) | 0xF800_0000 == t && t & 0x400_0000 != 0
  {}

  lemma SmallMagnitude(t: bv32)
    ensures t < 0x400_0000 <==> t & 0xFC00_0000 == 0
    ensures 0xFC00_0000 <= t <==> t & 0xFC00_0000 == 0xFC00_0000
  {}

  lemma SameLowFive(w: bv32, r: bv32)
    requires r & 31 == w & 31
    ensures LowBits(r, 5) == LowBits(w, 5)
  {
    HalvesByShift(w);
    HalvesByShift(r);
    assert LowBit(r) == LowBit(w) && LowBit(r >> 1) == LowBit(w >> 1) && LowBit(r >> 2) == LowBit(w >> 2)
        && LowBit(r >> 3) == LowBit(w >> 3) && LowBit(r >> 4) == LowBit(w >> 4);
    SameLowBits(r, w, 5);
  }

  lemma SetKeepsTypeAndFlag(w: bv32, t: bv32)
    ensures GetBits(SetBits(w, 5, 27, t), 0, 3) == GetBits(w, 0, 3)
    ensures GetBits(SetBits(w, 5, 27, t), 3, 1) == GetBits(w, 3, 1)
    ensures GetBits(SetBits(w, 5, 27, t), 5, 27) == t & 0x7FF_FFFF
  {
    SetValue(w, t);
    SetValueBits(w, t);
    GetType(w);
    GetType(SetBits(w, 5, 27, t));
    GetValue(SetBits(w, 5, 27, t));
  }

  lemma ShortNumbersFit(t: bv32)
    requires t < 0x800_0000
    ensures t & 0x7FF_FFFF == t
  {}

  lemma NatAfterSet(w: bv32, r: bv32, t: bv32, n: nat)
    requires n >= 32
    requires r & 31 == w & 31 && r >> 5 == t
    ensures LowBits(r, n) == LowBits(w, n) % 32 + 32 * LowBits(t, n)
  {
    ShiftedByFive(r, n);
    ShiftedByFive(w, n);
    SameLowFive(w, r);
  }

  lemma UnsignedRoundTrip(w: bv32, t: bv32, n: nat)
    requires n >= 32 && t & 0x7FF_FFFF == t
    ensures LowBits(SetBits(w, 5, 27, t), n) == LowBits(w, n) % 32 + 32 * LowBits(t, n)
  {
    SetValue(w, t);
    SetValueBits(w, t);
    NatAfterSet(w, SetBits(w, 5, 27, t), t, n);
  }

  lemma SetPayload(w: bv32, t: bv32)
    ensures SetBits(w, 5, 27, t) >> 5 == t & 0x7FF_FFFF
  {
    SetValue(w, t);
    SetValueBits(w, t);
  }

  lemma SignedRoundTrip(w: bv32, t: bv32)
    requires t & 0xFC00_0000 == 0 || t & 0xFC00_0000 == 0xFC00_0000
    ensures GetSignedValue(SetBits(w, 5, 27, t)) == t
  {
    SetPayload(w, t);
    SignExtension(SetBits(w, 5, 27, t), t);
  }

  /**
    Writing the 27-bit field of a word, through either template, keeps the type and the
    flag, and reads back what was written: as it is through the unsigned template, and
    through the signed one for every number of magnitude below 2^26 in two's complement.
    As a number, the word keeps its low five bits and gets 32 times the value.
   */
  lemma ValueFieldAssignment(w: bv32, t: bv32, n: nat)
    requires n >= 32
    ensures GetBits(SetBits(w, 5, 27, t), 0, 3) == GetBits(w, 0, 3)
    ensures GetBits(SetBits(w, 5, 27, t), 3, 1) == GetBits(w, 3, 1)
    ensures t < 0x800_0000 ==> GetBits(SetBits(w, 5, 27, t), 5, 27) == t
    ensures (t < 0x400_0000 || 0xFC00_0000 <= t) ==> GetSignedValue(SetBits(w, 5, 27, t)) == t
    ensures t < 0x800_0000 ==> LowBits(SetBits(w, 5, 27, t), n) == LowBits(w, n) % 32 + 32 * LowBits(t, n)
  {
    SetKeepsTypeAndFlag(w, t);
    if t < 0x800_0000 {
      ShortNumbersFit(t);
      UnsignedRoundTrip(w, t, n);
    }
    if t < 0x400_0000 || 0xFC00_0000 <= t {
      SmallMagnitude(t);
      SignedRoundTrip(w, t);
    }
  }
}
