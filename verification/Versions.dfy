/**
  Package versions: dot-separated numbers, compared component by component, with missing
  components counting as zero.
 */
module Versions {
  import opened Bytes
  import opened Decimals

  const DOT: byte := 0x2E

  /** `size_t` arithmetic wraps around. */
  const SIZE_T: nat := 0x1_0000_0000_0000_0000

  /** `c - '0'` for a signed `char`; components need not be digits. */
  function DigitOf(c: byte): int {
    (if c < 0x80 then c else c - 0x100) - 0x30
  }

  function ComponentEnd(v: Bytes): (n: nat)
    ensures n <= |v|
  {
    if v == [] || v[0] == DOT then 0 else 1 + ComponentEnd(v[1..])
  }

  /** The value of `acc` followed by the characters up to the next dot. */
  function Component(v: Bytes, acc: nat): nat {
    if v == [] || v[0] == DOT then acc else Component(v[1..], (acc * 10 + DigitOf(v[0])) % SIZE_T)
  }

  function AfterComponent(v: Bytes): (r: Bytes)
    ensures v != [] ==> |r| < |v|
    ensures v == [] ==> r == []
  {
    if ComponentEnd(v) < |v| then v[ComponentEnd(v) + 1..] else []
  }

  function Components(v: Bytes): seq<nat>
    decreases |v|
  {
    if v == [] then [] else [Component(v, 0)] + Components(AfterComponent(v))
  }

  // ---------------------------------------------------------------------
  // The order
  // ---------------------------------------------------------------------

  /** Component `k`, or zero when there are not so many. */
  function Padded(a: seq<nat>, k: nat): nat {
    if k < |a| then a[k] else 0
  }

  function Tail(a: seq<nat>): (t: seq<nat>)
    ensures forall k: nat :: Padded(t, k) == Padded(a, k + 1)
  {
    if a == [] then [] else a[1..]
  }

  /** -1, 0 or +1, by the first component that differs. */
  function Compare(a: seq<nat>, b: seq<nat>): (r: int)
    ensures -1 <= r <= 1
    decreases |a| + |b|
  {
    if a == [] && b == [] then 0
    else if Padded(a, 0) < Padded(b, 0) then -1
    else if Padded(a, 0) > Padded(b, 0) then 1
    else Compare(Tail(a), Tail(b))
  }

  /** Padded with zeros, `a` and `b` differ first at `k`. */
  predicate DifferFirstAt(a: seq<nat>, b: seq<nat>, k: nat) {
    Padded(a, k) != Padded(b, k) && forall j: nat :: j < k ==> Padded(a, j) == Padded(b, j)
  }

  lemma {:induction false} CompareAtDifference(a: seq<nat>, b: seq<nat>, k: nat)
    requires DifferFirstAt(a, b, k)
    ensures Compare(a, b) == if Padded(a, k) < Padded(b, k) then -1 else 1
    decreases k
  {
    if k > 0 {
      assert Padded(a, 0) == Padded(b, 0);
      forall j: nat | j < k - 1
        ensures Padded(Tail(a), j) == Padded(Tail(b), j)
      {
        assert Padded(a, j + 1) == Padded(b, j + 1);
      }
      CompareAtDifference(Tail(a), Tail(b), k - 1);
    }
  }

  /** Versions compare equal exactly when they agree up to zeros at the end. */
  lemma {:induction false} EqualUpToZeros(a: seq<nat>, b: seq<nat>)
    ensures Compare(a, b) == 0 <==> forall k: nat :: Padded(a, k) == Padded(b, k)
    decreases |a| + |b|
  {
    if a != [] || b != [] {
      EqualUpToZeros(Tail(a), Tail(b));
      if Compare(a, b) == 0 {
        forall k: nat
          ensures Padded(a, k) == Padded(b, k)
        {
          if k > 0 {
            assert Padded(Tail(a), k - 1) == Padded(Tail(b), k - 1);
          }
        }
      } else if forall k: nat :: Padded(a, k) == Padded(b, k) {
        assert Padded(a, 0) == Padded(b, 0);
        forall k: nat
          ensures Padded(Tail(a), k) == Padded(Tail(b), k)
        {
          assert Padded(a, k + 1) == Padded(b, k + 1);
        }
      }
    }
  }

  lemma {:induction false} CompareReversed(a: seq<nat>, b: seq<nat>)
    ensures Compare(b, a) == -Compare(a, b)
    decreases |a| + |b|
  {
    if a != [] || b != [] {
      CompareReversed(Tail(a), Tail(b));
    }
  }

  lemma {:induction false} CompareTransitive(a: seq<nat>, b: seq<nat>, c: seq<nat>)
    requires Compare(a, b) <= 0 && Compare(b, c) <= 0
    ensures Compare(a, c) <= 0
    ensures Compare(a, b) < 0 || Compare(b, c) < 0 ==> Compare(a, c) < 0
    decreases |a| + |b| + |c|
  {
    if a == [] && b == [] {
    } else if b == [] && c == [] {
    } else if a == [] && c == [] {
      if Padded(b, 0) == 0 {
        CompareTransitive(Tail(a), Tail(b), Tail(c));
      }
    } else if Padded(a, 0) == Padded(b, 0) == Padded(c, 0) {
      CompareTransitive(Tail(a), Tail(b), Tail(c));
    }
  }

  // ---------------------------------------------------------------------
  // `compareVersions` and `versionTest`
  // ---------------------------------------------------------------------

  function Rest(v: Bytes, i: nat): Bytes {
    if i <= |v| then v[i..] else []
  }

  method CompareVersions(v1: Bytes, v2: Bytes) returns (r: int)
    ensures r == Compare(Components(v1), Components(v2))
  {
    hide Compare, Components, Component, AfterComponent;
    var i, j := 0, 0;
    while i < |v1| || j < |v2|
      invariant Compare(Components(Rest(v1, i)), Components(Rest(v2, j))) == Compare(Components(v1), Components(v2))
      decreases (if i < |v1| then |v1| - i else 0) + (if j < |v2| then |v2| - j else 0)
    {
      CompareStep(Rest(v1, i), Rest(v2, j));
      var acc1, acc2;
      acc1, i := ReadComponent(v1, i);
      acc2, j := ReadComponent(v2, j);
      if acc1 < acc2 {
        return -1;
      }
      if acc1 > acc2 {
        return 1;
      }
      i := i + 1;
      j := j + 1;
    }
    NothingLeft();
    return 0;
  }

  lemma NothingLeft()
    ensures Compare(Components([]), Components([])) == 0
  {}

  lemma CompareStep(a: Bytes, b: Bytes)
    requires a != [] || b != []
    ensures Compare(Components(a), Components(b)) ==
            if Component(a, 0) < Component(b, 0) then -1
            else if Component(a, 0) > Component(b, 0) then 1
            else Compare(Components(AfterComponent(a)), Components(AfterComponent(b)))
  {
    hide Component, AfterComponent;
    FirstComponent(a);
    FirstComponent(b);
  }

  /** One of the two inner loops. */
  method ReadComponent(v: Bytes, start: nat) returns (acc: nat, i: nat)
    ensures acc == Component(Rest(v, start), 0)
    ensures i >= start && (start < |v| ==> i <= |v|) && Rest(v, i + 1) == AfterComponent(Rest(v, start))
  {
    hide Component, AfterComponent;
    i := start;
    acc := 0;
    while i < |v| && v[i] != DOT
      invariant start <= i && (start < |v| ==> i <= |v|) && (start >= |v| ==> i == start)
      invariant Component(Rest(v, i), acc) == Component(Rest(v, start), 0)
      invariant AfterComponent(Rest(v, i)) == AfterComponent(Rest(v, start))
      decreases |v| - i
    {
      OneCharacter(v, i, acc);
      acc := (acc * 10 + DigitOf(v[i])) % SIZE_T;
      i := i + 1;
    }
    ComponentEnds(v, i, acc);
  }

  lemma OneCharacter(v: Bytes, i: nat, acc: nat)
    requires i < |v| && v[i] != DOT
    ensures AfterComponent(Rest(v, i)) == AfterComponent(Rest(v, i + 1))
    ensures Component(Rest(v, i), acc) == Component(Rest(v, i + 1), (acc * 10 + DigitOf(v[i])) % SIZE_T)
  {
    var w := v[i..];
    assert w[1..] == v[i + 1..];
    var n := ComponentEnd(w);
    if n < |w| {
      assert w[n + 1..] == w[1..][n..];
    }
  }

  lemma ComponentEnds(v: Bytes, i: nat, acc: nat)
    requires i >= |v| || v[i] == DOT
    ensures Component(Rest(v, i), acc) == acc && AfterComponent(Rest(v, i)) == Rest(v, i + 1)
  {
    if i < |v| {
      assert v[i..][1..] == v[i + 1..];
    }
  }

  lemma FirstComponent(v: Bytes)
    ensures Padded(Components(v), 0) == Component(v, 0)
    ensures Tail(Components(v)) == Components(AfterComponent(v))
  {
    if v != [] {
      assert ([Component(v, 0)] + Components(AfterComponent(v)))[1..] == Components(AfterComponent(v));
    }
  }

  lemma {:induction false} ComponentConcat(a: Bytes, c: byte, acc: nat)
    requires DOT !in a && c != DOT
    ensures Component(a + [c], acc) == (Component(a, acc) * 10 + DigitOf(c)) % SIZE_T
    decreases |a|
  {
    if a == [] {
      assert ([] + [c])[1..] == [];
    } else {
      assert (a + [c])[1..] == a[1..] + [c];
      ComponentConcat(a[1..], c, (acc * 10 + DigitOf(a[0])) % SIZE_T);
    }
  }

  lemma LastDigit(n: nat)
    requires n < SIZE_T
    ensures (n / 10 * 10 + DigitOf(0x30 + n % 10)) % SIZE_T == n
  {}

  /** A component written in decimal counts as the number it spells, as long as `size_t` can hold it. */
  lemma {:induction false} DecimalComponent(n: nat)
    requires n < SIZE_T
    ensures Component(Digits(n), 0) == n && DOT !in Digits(n)
  {
    hide Component;
    if n < 10 {
      OneDigit(n);
    } else {
      DecimalComponent(n / 10);
      ComponentConcat(Digits(n / 10), 0x30 + n % 10, 0);
      LastDigit(n);
    }
  }

  lemma OneDigit(n: nat)
    requires n < 10
    ensures Component([0x30 + n], 0) == n
  {
    assert [0x30 + n][1..] == [];
  }

  /** `PcPackage::RequiredVersion::ComparisonType` */
  datatype Comparison = LessThan | GreaterThan | LessThanEqual | GreaterThanEqual | Equal | NotEqual | AlwaysMatch

  predicate VersionOk(comparison: Comparison, a: Bytes, b: Bytes) {
    var c := Compare(Components(a), Components(b));
    match comparison
    case LessThan => c < 0
    case GreaterThan => c > 0
    case LessThanEqual => c <= 0
    case GreaterThanEqual => c >= 0
    case Equal => c == 0
    case NotEqual => c != 0
    case AlwaysMatch => true
  }

  method VersionTest(comparison: Comparison, a: Bytes, b: Bytes) returns (r: bool)
    ensures r == VersionOk(comparison, a, b)
  {
    if comparison == AlwaysMatch {
      return true;
    }
    var c := CompareVersions(a, b);
    match comparison
    case LessThan => r := c < 0;
    case GreaterThan => r := c > 0;
    case LessThanEqual => r := c <= 0;
    case GreaterThanEqual => r := c >= 0;
    case Equal => r := c == 0;
    case NotEqual => r := c != 0;
  }

  // ---------------------------------------------------------------------
  // Versions as they are written
  // ---------------------------------------------------------------------

  /** Numbers in decimal with dots between them. */
  function Dotted(ns: seq<nat>): (v: Bytes)
    requires ns != []
  {
    if |ns| == 1 then Digits(ns[0]) else Digits(ns[0]) + ([0x2E] + Dotted(ns[1..]))
  }

  lemma {:induction false} FirstDot(a: Bytes, rest: Bytes)
    requires DOT !in a && (rest == [] || rest[0] == DOT)
    ensures ComponentEnd(a + rest) == |a|
    decreases |a|
  {
    if a == [] {
      assert a + rest == rest;
    } else {
      assert (a + rest)[1..] == a[1..] + rest;
      FirstDot(a[1..], rest);
    }
  }

  lemma {:induction false} ComponentBeforeDot(a: Bytes, rest: Bytes, acc: nat)
    requires DOT !in a && (rest == [] || rest[0] == DOT)
    ensures Component(a + rest, acc) == Component(a, acc)
    decreases |a|
  {
    if a == [] {
      assert a + rest == rest;
    } else {
      assert (a + rest)[1..] == a[1..] + rest;
      ComponentBeforeDot(a[1..], rest, (acc * 10 + DigitOf(a[0])) % SIZE_T);
    }
  }

  /** A dotted version has the numbers it is written with for its components, as long as they fit 64 bits. */
  lemma {:induction false} DottedComponents(ns: seq<nat>)
    requires ns != [] && forall k :: 0 <= k < |ns| ==> ns[k] < 0x1_0000_0000_0000_0000
    ensures Components(Dotted(ns)) == ns && Dotted(ns) != []
    decreases |ns|
  {
    hide Component, Digits;
    var a := Digits(ns[0]);
    DecimalComponent(ns[0]);
    if |ns| == 1 {
      assert a + [] == a;
      FirstDot(a, []);
      assert Components([]) == [];
      assert ns == [ns[0]];
    } else {
      var rest := [0x2E] + Dotted(ns[1..]);
      DottedComponents(ns[1..]);
      FirstDot(a, rest);
      ComponentBeforeDot(a, rest, 0);
      assert (a + rest)[|a| + 1..] == Dotted(ns[1..]);
      assert ns == [ns[0]] + ns[1..];
    }
  }

  /**
    Written versions compare number by number from the left, with zeros for numbers that
    are missing: the first difference decides, 1.9 is below 1.10, and 1.0 equals 1.
   */
  lemma WrittenVersions(comparison: Comparison, xs: seq<nat>, ys: seq<nat>, k: nat)
    requires xs != [] && forall i :: 0 <= i < |xs| ==> xs[i] < 0x1_0000_0000_0000_0000
    requires ys != [] && forall i :: 0 <= i < |ys| ==> ys[i] < 0x1_0000_0000_0000_0000
    requires forall j: nat :: j < k ==> (if j < |xs| then xs[j] else 0) == (if j < |ys| then ys[j] else 0)
    requires var x, y := if k < |xs| then xs[k] else 0, if k < |ys| then ys[k] else 0;
             x != y || (k >= |xs| && k >= |ys|)
    ensures var x, y := if k < |xs| then xs[k] else 0, if k < |ys| then ys[k] else 0;
            VersionOk(comparison, Dotted(xs), Dotted(ys)) <==>
            match comparison
            case LessThan => x < y
            case GreaterThan => x > y
            case LessThanEqual => x <= y
            case GreaterThanEqual => x >= y
            case Equal => x == y
            case NotEqual => x != y
            case AlwaysMatch => true
  {
    hide Components, Compare, Dotted;
    DottedComponents(xs);
    DottedComponents(ys);
    SameBefore(xs, ys, k);
    CompareReversed(xs, ys);
    if Padded(xs, k) < Padded(ys, k) {
      CompareAtDifference(xs, ys, k);
    } else if Padded(ys, k) < Padded(xs, k) {
      CompareAtDifference(ys, xs, k);
    } else {
      EqualUpToZeros(xs, ys);
    }
  }

  lemma SameBefore(xs: seq<nat>, ys: seq<nat>, k: nat)
    requires forall j: nat :: j < k ==> (if j < |xs| then xs[j] else 0) == (if j < |ys| then ys[j] else 0)
    ensures forall j: nat :: j < k ==> Padded(xs, j) == Padded(ys, j)
    ensures k >= |xs| && k >= |ys| ==> forall j: nat :: Padded(xs, j) == Padded(ys, j)
  {}

  /** Of two versions exactly one of less, equal and greater holds, seen from either side. */
  lemma Trichotomy(a: Bytes, b: Bytes)
    ensures VersionOk(LessThan, a, b) <==> VersionOk(GreaterThan, b, a)
    ensures VersionOk(Equal, a, b) <==> VersionOk(Equal, b, a)
    ensures VersionOk(Equal, a, b) <==> !VersionOk(LessThan, a, b) && !VersionOk(GreaterThan, a, b)
    ensures !(VersionOk(LessThan, a, b) && VersionOk(GreaterThan, a, b))
    ensures VersionOk(LessThanEqual, a, b) <==> !VersionOk(GreaterThan, a, b)
    ensures VersionOk(GreaterThanEqual, a, b) <==> !VersionOk(LessThan, a, b)
    ensures VersionOk(NotEqual, a, b) <==> !VersionOk(Equal, a, b)
  {
    CompareReversed(Components(a), Components(b));
  }

  /** "At least" and "at most" requirements are transitive. */
  lemma RequirementsChain(a: Bytes, b: Bytes, c: Bytes)
    requires VersionOk(LessThanEqual, a, b) && VersionOk(LessThanEqual, b, c)
    ensures VersionOk(LessThanEqual, a, c) && VersionOk(GreaterThanEqual, c, a)
    ensures VersionOk(LessThan, a, b) || VersionOk(LessThan, b, c) ==> VersionOk(LessThan, a, c)
  {
    CompareTransitive(Components(a), Components(b), Components(c));
    CompareReversed(Components(a), Components(c));
  }
}
