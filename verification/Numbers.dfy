/**
  Value words as arithmetic, IEEE 754 doubles, and the packing of small integral
  doubles into 27 bits.
 */
module Numbers {
  import opened Bytes

  datatype Option<+T> = None | Some(value: T)

  // ---------------------------------------------------------------------
  // A value word: 3-bit type, 1-bit int flag, 1 unused bit, 27-bit payload
  // ---------------------------------------------------------------------

  const TWO_TO_THE_26: int := 0x400_0000
  const TWO_TO_THE_27: int := 0x800_0000

  /** `Value::MaxSize` */
  const MAX_SIZE: nat := 0x7FF_FFFF

  function TypeField(w: nat): nat { w % 8 }
  function IntField(w: nat): nat { w / 8 % 2 }
  function ValueField(w: nat): nat { w / 32 }

  /** The payload read through the signed template. */
  function SignedField(w: nat): int {
    if ValueField(w) < TWO_TO_THE_26 then ValueField(w) else ValueField(w) - TWO_TO_THE_27
  }

  /** Assigning `type`, `intValue` and `value` of a word; the unused bit keeps what `prior` had. */
  function PackWord(prior: word, ty: nat, flag: bool, value: int): (w: word)
    requires ty < 8 && -TWO_TO_THE_26 <= value < TWO_TO_THE_27
  {
    ty + 8 * (if flag then 1 else 0) + 16 * (prior / 16 % 2) + 32 * Payload27(value)
  }

  /** 27 bits of two's complement. */
  function Payload27(value: int): (v: nat)
    requires -TWO_TO_THE_26 <= value < TWO_TO_THE_27
    ensures v < TWO_TO_THE_27
  {
    if value < 0 then value + TWO_TO_THE_27 else value
  }

  lemma PackedFields(prior: word, ty: nat, flag: bool, value: int)
    requires ty < 8 && -TWO_TO_THE_26 <= value < TWO_TO_THE_27
    ensures var w := PackWord(prior, ty, flag, value);
            && TypeField(w) == ty
            && IntField(w) == (if flag then 1 else 0)
            && ValueField(w) == Payload27(value)
  {
    DigitsOf(ty, if flag then 1 else 0, prior / 16 % 2, Payload27(value));
  }

  lemma DigitsOf(a: nat, b: nat, c: nat, d: nat)
    requires a < 8 && b < 2 && c < 2
    ensures (a + 8 * b + 16 * c + 32 * d) % 8 == a
    ensures (a + 8 * b + 16 * c + 32 * d) / 8 % 2 == b
    ensures (a + 8 * b + 16 * c + 32 * d) / 32 == d
  {
    assert (a + 8 * (b + 2 * (c + 2 * d))) / 8 == b + 2 * (c + 2 * d);
  }

  /** Reading the payload through the signed template gives back what was assigned. */
  lemma PackedSigned(prior: word, ty: nat, flag: bool, value: int)
    requires ty < 8 && -TWO_TO_THE_26 <= value < TWO_TO_THE_26
    ensures SignedField(PackWord(prior, ty, flag, value)) == value
  {
    PackedFields(prior, ty, flag, value);
  }

  // ---------------------------------------------------------------------
  // IEEE 754 doubles
  // ---------------------------------------------------------------------

  type Double = s: Bytes | |s| == 8 witness [0, 0, 0, 0, 0, 0, 0, 0]

  const TWO_TO_THE_52: nat := 0x10_0000_0000_0000
  const TWO_TO_THE_63: nat := 0x8000_0000_0000_0000

  function Bits(d: Double): (v: nat)
    ensures v < 2 * TWO_TO_THE_63
  {
    U32(d, 0) + TWO_TO_THE_32 * U32(d, 4)
  }

  function Exponent(v: nat): nat { v / TWO_TO_THE_52 % 2048 }
  function Fraction(v: nat): nat { v % TWO_TO_THE_52 }
  predicate Negative(v: nat) { v / TWO_TO_THE_63 % 2 == 1 }

  predicate Finite(v: nat) { Exponent(v) != 2047 }

  function Pow2(n: nat): (p: nat)
    ensures p > 0
  {
    if n == 0 then 1 else 2 * Pow2(n - 1)
  }

  /** Two to the power `x`, which may be negative. */
  function Scale(x: int): (r: real)
    ensures r > 0.0
  {
    if x >= 0 then Pow2(x) as real else 1.0 / (Pow2(-x) as real)
  }

  function Significand(v: nat): nat {
    if Exponent(v) == 0 then Fraction(v) else TWO_TO_THE_52 + Fraction(v)
  }

  /** The power of two that a finite pattern's significand is scaled by. */
  function Shift(v: nat): int {
    (if Exponent(v) == 0 then 1 else Exponent(v)) - 1075
  }

  /** The number a finite bit pattern denotes. */
  function RealOf(v: nat): real {
    var magnitude := Significand(v) as real * Scale(Shift(v));
    if Negative(v) then -magnitude else magnitude
  }

  /** `compressedNumber`, with `None` for `INT_MAX`. */
  function Compressed(v: nat): Option<int> {
    var exp := Exponent(v) - 1023;
    if exp < 0 || exp > 25 then None
    else if v % Pow2(52 - exp) != 0 then None  // v & (fraction_mask >> exp)
    else
      var res := (Fraction(v) + TWO_TO_THE_52) / Pow2(52 - exp);
      Some(if Negative(v) then -res else res)
  }

  datatype Number = Int(n: int) | Raw(bits: Double)

  /** A double up to numeric equality of the values that have two encodings. */
  function Canonical(d: Double): Number {
    var v := Bits(d);
    if Compressed(v).Some? then Int(Compressed(v).value)
    else if v % TWO_TO_THE_63 == 0 then Int(0)
    else Raw(d)
  }

  lemma {:induction false} Pow2Add(a: nat, b: nat)
    ensures Pow2(a + b) == Pow2(a) * Pow2(b)
  {
    if a > 0 {
      Pow2Add(a - 1, b);
    }
  }

  lemma Pow2At52()
    ensures Pow2(26) == TWO_TO_THE_26 && Pow2(52) == TWO_TO_THE_52
  {
    assert Pow2(4) == 16;
    Pow2Add(4, 4);
    Pow2Add(8, 8);
    Pow2Add(16, 8);
    Pow2Add(24, 2);
    Pow2Add(26, 26);
  }

  lemma OneMore(a: int, b: int, m: nat)
    requires a < b
    ensures a * m + m <= b * m
  {
    assert (a + 1) * m <= b * m;
  }

  lemma DivMul(a: nat, m: nat, q: nat)
    requires m > 0 && a == q * m
    ensures a / m == q && a % m == 0
  {
    var p := a / m;
    if p < q {
      OneMore(p, q, m);
    } else if q < p {
      OneMore(q, p, m);
    }
  }

  lemma ModOfMultiple(a: nat, b: nat, m: nat)
    requires m > 0 && b % m == 0
    ensures (a + b) % m == a % m
  {
    var q := b / m;
    assert b == q * m;
    var x, r := a / m, a % m;
    assert a + b == (x + q) * m + r;
    var y, s := (a + b) / m, (a + b) % m;
    assert a + b == y * m + s;
    if y < x + q {
      OneMore(y, x + q, m);
    } else if y > x + q {
      OneMore(x + q, y, m);
    }
  }

  lemma MultipleOfPart(q: nat, c: nat, m: nat)
    requires m > 0 && c * m == TWO_TO_THE_52
    ensures q * TWO_TO_THE_52 % m == 0
  {
    assert q * (c * m) == (q * c) * m;
    DivMul(q * TWO_TO_THE_52, m, q * c);
  }

  /** Below the exponent, the masked bits of the pattern are those of the significand. */
  lemma MaskedBits(v: nat, k: nat)
    requires k <= 52
    ensures v % Pow2(k) == (TWO_TO_THE_52 + Fraction(v)) % Pow2(k)
  {
    var m, c := Pow2(k), Pow2(52 - k);
    Pow2At52();
    Pow2Add(52 - k, k);
    var q, f := v / TWO_TO_THE_52, Fraction(v);
    MultipleOfPart(q, c, m);
    MultipleOfPart(1, c, m);
    ModOfMultiple(f, q * TWO_TO_THE_52, m);
    ModOfMultiple(f, TWO_TO_THE_52, m);
  }

  lemma ScaledEquality(s: nat, k: nat, n: nat)
    ensures s as real * Scale(0 - k) == n as real <==> s == n * Pow2(k)
  {
    var p := Pow2(k) as real;
    ScaleDown(k);
    ScaledQuotient(s as real, p, n as real);
    ProductAsReal(n, Pow2(k));
  }

  lemma ScaleDown(k: nat)
    ensures Scale(0 - k) == 1.0 / (Pow2(k) as real)
  {
    if k == 0 {
      assert Pow2(k) == 1;
    }
  }

  lemma ScaledQuotient(s: real, p: real, n: real)
    requires p > 0.0
    ensures s * (1.0 / p) == n <==> s == n * p
  {
    var r := 1.0 / p;
    assert r * p == 1.0;
    assert (s * r) * p == s * (r * p);
    assert (n * p) * r == n * (r * p);
  }

  lemma ProductAsReal(a: nat, b: nat)
    ensures (a * b) as real == a as real * b as real
  {}

  lemma {:induction false} Pow2Grows(a: nat, b: nat)
    requires a <= b
    ensures Pow2(a) <= Pow2(b)
  {
    if a < b {
      Pow2Grows(a, b - 1);
    }
  }

  /** What the magnitude of a finite pattern is equal to among the naturals. */
  predicate IsMagnitude(v: nat, m: nat) {
    if Shift(v) < 0 then Significand(v) == m * Pow2(0 - Shift(v))
    else m == Significand(v) * Pow2(Shift(v))
  }

  lemma RealIsInteger(v: nat, n: int)
    ensures RealOf(v) == n as real <==>
            IsMagnitude(v, if n < 0 then -n else n) && (n == 0 || (n < 0 <==> Negative(v)))
  {
    var m: nat := if n < 0 then -n else n;
    MagnitudeIs(v, m);
    NonNegativeProduct(Significand(v) as real, Scale(Shift(v)));
  }

  lemma MagnitudeIs(v: nat, m: nat)
    ensures Significand(v) as real * Scale(Shift(v)) == m as real <==> IsMagnitude(v, m)
  {
    if Shift(v) < 0 {
      ScaledEquality(Significand(v), 0 - Shift(v), m);
    } else {
      ProductAsReal(Significand(v), Pow2(Shift(v)));
    }
  }

  lemma NonNegativeProduct(a: real, b: real)
    requires a >= 0.0 && b > 0.0
    ensures a * b >= 0.0
  {}

  lemma QuotientBound(s: nat, m: nat, p: nat)
    requires s == m * p && p > 0
    ensures m == s / p && s % p == 0
    ensures s < p ==> m == 0
  {
    DivMul(s, p, m);
    if m >= 1 {
      assert m * p >= p;
    }
  }

  /** Too small to be a nonzero integer. */
  lemma BelowOne(v: nat, m: nat)
    requires Shift(v) < -52 && IsMagnitude(v, m)
    ensures m == 0
  {
    Pow2At52();
    Pow2Grows(53, 0 - Shift(v));
    QuotientBound(Significand(v), m, Pow2(0 - Shift(v)));
  }

  lemma ProductBound(m: nat, p: nat, t: int)
    requires m < t && 0 < p <= t
    ensures m * p < t * t
  {
    assert m * p <= m * t;
    OneMore(m, t, t);
  }

  /** Too large for 26 bits. */
  lemma AboveLimit(v: nat, m: nat)
    requires Exponent(v) != 0 && Shift(v) > -27 && IsMagnitude(v, m)
    ensures m >= TWO_TO_THE_26
  {
    Pow2At52();
    if Shift(v) < 0 {
      var p := Pow2(0 - Shift(v));
      Pow2Grows(0 - Shift(v), 26);
      if m < TWO_TO_THE_26 {
        ProductBound(m, p, TWO_TO_THE_26);
      }
    } else {
      assert Significand(v) * Pow2(Shift(v)) >= Significand(v);
    }
  }

  /** In range, the significand's low bits decide, and the shift yields the number. */
  lemma InRange(v: nat, m: nat)
    requires -52 <= Shift(v) <= -27 && Exponent(v) != 0
    ensures IsMagnitude(v, m) <==>
            v % Pow2(0 - Shift(v)) == 0 && m == Significand(v) / Pow2(0 - Shift(v))
    ensures IsMagnitude(v, m) ==> 0 < m < TWO_TO_THE_26
  {
    var k: nat := 0 - Shift(v);
    MaskedBits(v, k);
    DivisibleQuotient(Significand(v), Pow2(k), m);
    if IsMagnitude(v, m) {
      Pow2At52();
      assert Pow2(27) == 2 * Pow2(26);
      Pow2Grows(27, k);
      SmallQuotient(Significand(v), Pow2(k), m);
    }
  }

  lemma DivisibleQuotient(s: nat, p: nat, m: nat)
    requires p > 0
    ensures s == m * p <==> s % p == 0 && m == s / p
  {
    if s == m * p {
      DivMul(s, p, m);
    }
    assert s == (s / p) * p + s % p;
  }

  lemma SmallQuotient(s: nat, p: nat, m: nat)
    requires s == m * p && p >= TWO_TO_THE_27
    requires TWO_TO_THE_52 <= s < 2 * TWO_TO_THE_52
    ensures 0 < m < TWO_TO_THE_26
  {
    if m >= TWO_TO_THE_26 {
      OneMore(TWO_TO_THE_26 - 1, m, p);
    }
  }

  /**
    `compressedNumber` answers for exactly the finite doubles that are nonzero integers
    of magnitude below 2^26, and answers with that integer.
   */
  lemma CompressedIsExact(v: nat, n: int)
    requires Finite(v)
    ensures Compressed(v) == Some(n) <==>
            RealOf(v) == n as real && n != 0 && -TWO_TO_THE_26 < n < TWO_TO_THE_26
  {
    RealIsInteger(v, n);
    var m: nat := if n < 0 then -n else n;
    if Shift(v) < -52 {
      if IsMagnitude(v, m) {
        BelowOne(v, m);
      }
    } else if Shift(v) > -27 {
      if IsMagnitude(v, m) {
        AboveLimit(v, m);
      }
    } else {
      InRange(v, m);
      InRange(v, Significand(v) / Pow2(0 - Shift(v)));
    }
  }

  lemma SignedZero(v: nat)
    requires v % TWO_TO_THE_63 == 0
    ensures RealOf(v) == 0.0
  {
    assert Fraction(v) == 0 && Exponent(v) == 0;
    var r := Scale(Shift(v));
    assert Significand(v) as real * r == 0.0;
  }

  /** The canonical form of a double denotes the number the double does. */
  lemma CanonicalKeepsValue(d: Double)
    requires Finite(Bits(d))
    ensures match Canonical(d)
            case Int(n) => RealOf(Bits(d)) == n as real && -TWO_TO_THE_26 < n < TWO_TO_THE_26
            case Raw(bits) => bits == d
  {
    var v := Bits(d);
    if Compressed(v).Some? {
      CompressedIsExact(v, Compressed(v).value);
    } else if v % TWO_TO_THE_63 == 0 {
      SignedZero(v);
    }
  }

  lemma CompressedFits(v: nat)
    ensures Compressed(v).Some? ==> -TWO_TO_THE_26 < Compressed(v).value < TWO_TO_THE_26
  {
    if Compressed(v).Some? {
      CompressedIsExact(v, Compressed(v).value);
    }
  }
}
