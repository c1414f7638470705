/**
  Natural numbers in decimal ASCII digits.
 */
module Decimals {
  import opened Bytes

  predicate IsDigit(c: byte) {
    0x30 <= c <= 0x39
  }

  function Digits(n: nat): (s: Bytes)
    ensures s != [] && forall k :: 0 <= k < |s| ==> IsDigit(s[k])
  {
    if n < 10 then [0x30 + n] else Digits(n / 10) + [0x30 + n % 10]
  }

  /** Horner's rule over leading digits: what the digits of `s` add to `acc`. */
  function DigitsValue(s: Bytes, acc: nat): nat {
    if s == [] || !IsDigit(s[0]) then acc else DigitsValue(s[1..], 10 * acc + (s[0] - 0x30))
  }

  lemma {:induction false} DigitsValueConcat(a: Bytes, b: Bytes, acc: nat)
    requires forall k :: 0 <= k < |a| ==> IsDigit(a[k])
    ensures DigitsValue(a + b, acc) == DigitsValue(b, DigitsValue(a, acc))
    decreases |a|
  {
    if a == [] {
      assert a + b == b;
    } else {
      assert (a + b)[1..] == a[1..] + b;
      DigitsValueConcat(a[1..], b, 10 * acc + (a[0] - 0x30));
    }
  }

  /** The decimal digits of a number spell that number. */
  lemma {:induction false} DigitsSpell(n: nat)
    ensures DigitsValue(Digits(n), 0) == n
  {
    if n < 10 {
      assert Digits(n)[1..] == [];
    } else {
      var d: byte := 0x30 + n % 10;
      DigitsSpell(n / 10);
      DigitsValueConcat(Digits(n / 10), [d], 0);
      assert [d][1..] == [];
    }
  }
}
