/**
  Bytes, little-endian 32-bit words, 4-byte alignment and memmove: what every
  layer of the binary JSON store is written in.
 */
module Bytes {

  type byte = b: int | 0 <= b < 0x100
  type word = w: int | 0 <= w < 0x1_0000_0000
  type Bytes = seq<byte>

  const TWO_TO_THE_32: nat := 0x1_0000_0000

  /** The 32-bit little-endian word stored at offset `i`. */
  function U32(s: Bytes, i: nat): (w: word)
    requires i + 4 <= |s|
  {
    var b0: int, b1: int, b2: int, b3: int := s[i], s[i + 1], s[i + 2], s[i + 3];
    b0 + 0x100 * b1 + 0x1_0000 * b2 + 0x100_0000 * b3
  }

  function LE4(w: word): (s: Bytes)
    ensures |s| == 4
  {
    [w % 0x100, w / 0x100 % 0x100, w / 0x1_0000 % 0x100, w / 0x100_0000]
  }

  lemma U32OfLE4(w: word)
    ensures U32(LE4(w), 0) == w
  {
    assert w / 0x1_0000 == w / 0x100 / 0x100;
    assert w / 0x100_0000 == w / 0x1_0000 / 0x100;
  }

  /** A word is a function of the four bytes that hold it, wherever they are. */
  lemma U32Moved(s: Bytes, i: nat, t: Bytes, j: nat)
    requires i + 4 <= |s| && j + 4 <= |t|
    requires s[i..i + 4] == t[j..j + 4]
    ensures U32(s, i) == U32(t, j)
  {
    assert s[i..i + 4] == [s[i], s[i + 1], s[i + 2], s[i + 3]];
    assert t[j..j + 4] == [t[j], t[j + 1], t[j + 2], t[j + 3]];
  }

  /** `alignedSize`: round up to the next multiple of four. */
  function Align4(n: nat): (a: nat)
    ensures n <= a < n + 4 && a % 4 == 0
  {
    (n + 3) / 4 * 4
  }

  lemma Align4Plus4(n: nat)
    ensures Align4(n + 4) == Align4(n) + 4
  {}

  /** `s` with `x` written over the bytes at offset `at`. */
  function Write(s: Bytes, at: nat, x: Bytes): (r: Bytes)
    requires at + |x| <= |s|
    ensures |r| == |s|
    ensures r[..at] == s[..at] && r[at..at + |x|] == x && r[at + |x|..] == s[at + |x|..]
  {
    s[..at] + x + s[at + |x|..]
  }

  function SetWord(s: Bytes, at: nat, w: word): (r: Bytes)
    requires at + 4 <= |s|
    ensures |r| == |s|
    ensures r[..at] == s[..at] && r[at + 4..] == s[at + 4..]
    ensures U32(r, at) == w
  {
    var r := Write(s, at, LE4(w));
    U32OfLE4(w);
    U32Moved(r, at, LE4(w), 0);
    r
  }

  /** `memmove`: the `n` bytes at `src` are copied to `dst`; the two may overlap. */
  function MemMove(s: Bytes, dst: nat, src: nat, n: nat): (r: Bytes)
    requires dst + n <= |s| && src + n <= |s|
    ensures |r| == |s|
    ensures r[..dst] == s[..dst] && r[dst..dst + n] == s[src..src + n] && r[dst + n..] == s[dst + n..]
  {
    Write(s, dst, s[src..src + n])
  }

  /** Memory as `malloc` hands it out: callers may rely on its length only. */
  method Junk(n: nat) returns (r: Bytes)
    ensures |r| == n
  {
    r := seq(n, _ => 0);
  }

  /** Equal slices have equal sub-slices. */
  lemma SubSlice(s: Bytes, t: Bytes, lo: nat, hi: nat, a: nat, b: nat)
    requires hi <= |s| && hi <= |t| && lo <= a <= b <= hi
    requires s[lo..hi] == t[lo..hi]
    ensures s[a..b] == t[a..b]
  {
    forall k | a <= k < b
      ensures s[k] == t[k]
    {
      assert s[lo..hi][k - lo] == t[lo..hi][k - lo];
    }
  }

  lemma SliceOfSlice(s: Bytes, lo: nat, hi: nat, a: nat, b: nat)
    requires lo <= hi <= |s| && a <= b <= hi - lo
    ensures s[lo..hi][a..b] == s[lo + a..lo + b]
  {
    var x, y := s[lo..hi][a..b], s[lo + a..lo + b];
    forall k | 0 <= k < b - a
      ensures x[k] == y[k]
    {
      assert x[k] == s[lo..hi][a + k] == s[lo + (a + k)];
    }
  }

  lemma ThreeParts(a: Bytes, b: Bytes, c: Bytes)
    ensures a + b + c == a + (b + c)
    ensures (a + b + c)[|a|..|a| + |b|] == b
    ensures (a + b + c)[|a| + |b|..|a| + |b| + |c|] == c
  {}

  function Sum(s: seq<nat>): nat {
    if s == [] then 0 else s[0] + Sum(s[1..])
  }

  lemma {:induction false} SumConcat(a: seq<nat>, b: seq<nat>)
    ensures Sum(a + b) == Sum(a) + Sum(b)
  {
    if a == [] {
      assert a + b == b;
    } else {
      assert (a + b)[1..] == a[1..] + b;
      SumConcat(a[1..], b);
    }
  }

  lemma SumOne(n: nat)
    ensures Sum([n]) == n
  {
    assert [n][1..] == [];
  }
}
