/**
  Pieces of a data region by themselves: bytes that hold the payload of a value word, or a
  whole entry, provided they come at a given place, whatever is in front of them.
 */
module Payloads {
  import opened Bytes
  import opened Numbers
  import opened Json
  import opened Arena
  import opened Values
  import opened Layout

  /** Behind `n` bytes of data, `x` is all the storage of the value word `w`, which stands for `v`. */
  ghost predicate IsPayload(n: nat, x: Bytes, w: word, v: Json) {
    forall p: Bytes :: |p| == n ==> ValueAt(p + x, w) == Some(v) && UsedStorage(p + x, w) == |x|
  }

  /** Behind `n` bytes of data, `x` is all the storage of an entry for `m`. */
  ghost predicate IsEntry(n: nat, x: Bytes, m: Member) {
    n + HEADER < TWO_TO_THE_32 && forall p: Bytes :: |p| == n ==> HoldsEntry(p + x, n + HEADER, m, |x|)
  }

  predicate HoldsEntry(d: Bytes, e: word, m: Member, size: nat) {
    EntryAt(d, e) == Some(m) && EntryStorage(d, e) == size
  }

  /** `toInternal`: the bytes of a length-prefixed string with its padding. */
  predicate IsStringStorage(x: Bytes, s: Bytes) {
    |s| < 0x8000_0000 && |x| == 4 + Align4(|s|) && U32(x, 0) == |s| && x[4..4 + |s|] == s
  }

  lemma AfterPrefix(p: Bytes, x: Bytes, i: nat, j: nat)
    requires i <= j <= |x|
    ensures (p + x)[|p| + i..|p| + j] == x[i..j]
  {}

  lemma PrefixedString(p: Bytes, x: Bytes, s: Bytes)
    requires IsStringStorage(x, s) && |p| % 4 == 0
    ensures StringBytes(p + x, HEADER + |p|) == Some(s) && U32(p + x, |p|) == |s|
  {
    AfterPrefix(p, x, 0, 4);
    AfterPrefix(p, x, 4, 4 + |s|);
    U32Moved(p + x, |p|, x, 0);
  }

  lemma WordPayload(n: nat, w: word, v: Json)
    requires TypeField(w) <= T_DOUBLE && (TypeField(w) == T_DOUBLE ==> IntField(w) == 1)
    requires ValueAt([], w) == Some(v)
    ensures IsPayload(n, [], w, v)
  {}

  lemma StringPayload(n: nat, x: Bytes, s: Bytes, w: word)
    requires IsStringStorage(x, s) && n % 4 == 0
    requires TypeField(w) == T_STRING && ValueField(w) == HEADER + n
    ensures IsPayload(n, x, w, Str(s))
  {
    forall p: Bytes | |p| == n
      ensures ValueAt(p + x, w) == Some(Str(s)) && UsedStorage(p + x, w) == |x|
    {
      PrefixedString(p, x, s);
    }
  }

  lemma DoublePayload(n: nat, d: Double, w: word)
    requires n % 4 == 0
    requires TypeField(w) == T_DOUBLE && IntField(w) == 0 && ValueField(w) == HEADER + n
    ensures IsPayload(n, d, w, Num(Canonical(d)))
  {
    forall p: Bytes | |p| == n
      ensures ValueAt(p + d, w) == Some(Num(Canonical(d))) && UsedStorage(p + d, w) == 8
    {
      assert (p + d)[n..n + 8] == d;
    }
  }

  lemma BlockPayload(n: nat, b: Bytes, w: word)
    requires Contents(b, TypeField(w) == T_OBJECT).Some? && n % 4 == 0
    requires IsNested(w) && ValueField(w) == HEADER + n
    ensures IsPayload(n, b, w, Contents(b, TypeField(w) == T_OBJECT).value)
  {
    hide Contents;
    var v := Contents(b, TypeField(w) == T_OBJECT);
    forall p: Bytes | |p| == n
      ensures ValueAt(p + b, w) == v && UsedStorage(p + b, w) == |b|
    {
      assert (p + b)[n..n + |b|] == b;
      StoredBlock(p + b, HEADER + n, b, w);
    }
  }

  /** An entry is its value word, its key and the payload of the value, one after the other. */
  lemma EntryPieces(n: nat, w: word, s: Bytes, key: Key, y: Bytes, v: Json)
    requires IsStringStorage(s, key) && n % 4 == 0 && n + HEADER < TWO_TO_THE_32
    requires IsPayload(n + 4 + |s|, y, w, v)
    ensures IsEntry(n, LE4(w) + s + y, (key, v))
  {
    hide ValueAt, UsedStorage, IsStringStorage;
    var x := LE4(w) + s + y;
    forall p: Bytes | |p| == n
      ensures HoldsEntry(p + x, n + HEADER, (key, v), |x|)
    {
      var q := p + LE4(w) + s;
      assert p + x == q + y;
      assert ValueAt(q + y, w) == Some(v);
      EntryPiecesAt(p, w, s, key, y);
    }
  }

  lemma EntryPiecesAt(p: Bytes, w: word, s: Bytes, key: Key, y: Bytes)
    requires IsStringStorage(s, key) && |p| % 4 == 0 && |p| + HEADER < TWO_TO_THE_32
    ensures var x, e := p + (LE4(w) + s + y), |p| + HEADER;
            && InData(x, e, 8) && U32(x, |p|) == w && StringBytes(x, e + 4) == Some(key)
            && EntrySize(x, e) == 4 + |s|
  {
    var r := LE4(w) + s + y;
    var x := p + r;
    AfterPrefix(p, r, 0, 4);
    assert r[0..4] == LE4(w)[0..4];
    U32OfLE4(w);
    U32Moved(x, |p|, LE4(w), 0);
    assert x == (p + LE4(w)) + (s + y) && x == (p + LE4(w) + s) + y;
    PrefixedString(p + LE4(w), s, key);
    var z := p + LE4(w) + s;
    StringGrows(z, y, |p| + HEADER + 4);
    U32OfPrefix(z, y, |p| + 4);
    Align4Plus4(|key|);
  }

  /** A payload behind the data of an array adds an item. */
  lemma ArrayAppended(d: Bytes, x: Bytes, t: seq<word>, vs: seq<Json>, w: word, v: Json)
    requires ArrayDoc(d, t) == Some(Arr(vs)) && IsPayload(|d|, x, w, v)
    ensures ArrayDoc(d + x, t + [w]) == Some(Arr(vs + [v]))
  {
    hide ValueAt, UsedStorage, ArrayDoc;
    ArrayGrows(d, x, t);
    assert ValueAt(d + x, w) == Some(v);
    StorageWithin(d, t);
    ArrayInserted(d + x, t, |t|, w, v);
    assert Inserted(t, |t|, w) == t + [w] && Inserted(vs, |vs|, v) == vs + [v];
  }

  lemma StorageWithin(d: Bytes, t: seq<word>)
    requires ArrayDoc(d, t).Some?
    ensures Sum(ValueSizes(d, t)) <= |d|
  {}

  lemma EmptyArrayDoc()
    ensures ArrayDoc([], []) == Some(Arr([]))
  {
    assert ValueSizes([], []) == [];
    assert ArrayDoc([], []).value.items == [];
  }

  lemma EmptyObjectDoc()
    ensures ObjectDoc([], []) == Some(Obj([]))
  {
    assert EntrySizes([], []) == [];
    assert ObjectDoc([], []).value.members == [];
  }
}
