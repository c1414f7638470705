/**
  Assembling a container block from its parts, and recognizing the parts of one.
 */
module Blocks {
  import opened Bytes
  import opened Numbers
  import opened Json
  import opened Arena

  predicate HasHeader(b: Bytes, size: nat, isObject: bool, length: nat, tab: nat) {
    |b| >= HEADER && Size(b) == size && IsObject(b) == isObject && Length(b) == length && TableOffset(b) == tab
  }

  function TagWord(isObject: bool, length: nat): (w: word)
    requires length < 0x8000_0000
    ensures w / 2 == length && (w % 2 == 1 <==> isObject)
  {
    2 * length + if isObject then 1 else 0
  }

  function Header(size: word, isObject: bool, length: nat, tab: word): (h: Bytes)
    requires length < 0x8000_0000
    ensures |h| == HEADER
  {
    LE4(size) + LE4(TagWord(isObject, length)) + LE4(tab)
  }

  lemma HeaderFields(size: word, isObject: bool, length: nat, tab: word, rest: Bytes)
    requires length < 0x8000_0000
    ensures HasHeader(Header(size, isObject, length, tab) + rest, size, isObject, length, tab)
  {
    var a, t, c := LE4(size), LE4(TagWord(isObject, length)), LE4(tab);
    var b := Header(size, isObject, length, tab) + rest;
    assert b[0..4] == a[0..4] && b[4..8] == t[0..4] && b[8..12] == c[0..4];
    U32Moved(b, 0, a, 0);
    U32Moved(b, 4, t, 0);
    U32Moved(b, 8, c, 0);
    U32OfLE4(size);
    U32OfLE4(TagWord(isObject, length));
    U32OfLE4(tab);
  }

  function TableBytes(t: seq<word>): (s: Bytes)
    ensures |s| == 4 * |t|
  {
    seq(4 * |t|, k requires 0 <= k < 4 * |t| => LE4(t[k / 4])[k % 4])
  }

  lemma TableWord(t: seq<word>, i: nat)
    requires i < |t|
    ensures U32(TableBytes(t), 4 * i) == t[i]
  {
    var s, x := TableBytes(t), LE4(t[i]);
    assert s[4 * i] == x[0] && s[4 * i + 1] == x[1] && s[4 * i + 2] == x[2] && s[4 * i + 3] == x[3];
    U32OfLE4(t[i]);
  }

  lemma WordInSlice(s: Bytes, at: nat, r: Bytes, i: nat)
    requires at + |r| <= |s| && s[at..at + |r|] == r && i + 4 <= |r|
    ensures U32(s, at + i) == U32(r, i)
  {
    SliceOfSlice(s, at, at + |r|, i, i + 4);
    U32Moved(s, at + i, r, i);
  }

  lemma TableWordReadsBack(s: Bytes, at: nat, t: seq<word>, i: nat)
    requires at + 4 * |t| <= |s| && s[at..at + 4 * |t|] == TableBytes(t)
    requires i < |t|
    ensures U32(s, at + 4 * i) == t[i]
  {
    TableWord(t, i);
    WordInSlice(s, at, TableBytes(t), 4 * i);
  }

  lemma TableReadsBack(s: Bytes, at: nat, t: seq<word>)
    requires at + 4 * |t| <= |s| && s[at..at + 4 * |t|] == TableBytes(t)
    ensures Words(s, at, |t|) == t
  {
    forall i | 0 <= i < |t|
      ensures U32(s, at + 4 * i) == t[i]
    {
      TableWordReadsBack(s, at, t, i);
    }
  }

  /** A block is recognized by its header, its data and its table; what follows the table is slack. */
  lemma SplitIs(b: Bytes, isObject: bool, d: Bytes, t: seq<word>)
    requires |b| % 4 == 0 && |d| % 4 == 0 && HEADER + |d| + 4 * |t| <= |b|
    requires HasHeader(b, |b|, isObject, |t|, HEADER + |d|)
    requires b[HEADER..HEADER + |d|] == d
    requires Words(b, HEADER + |d|, |t|) == t
    ensures Split(b) == Some(Parts(isObject, if t == [] then [] else d, t))
  {}

  lemma EmptySplit(b: Bytes, isObject: bool, tab: nat)
    requires |b| % 4 == 0 && HasHeader(b, |b|, isObject, 0, tab) && tab <= |b| && tab % 4 == 0
    ensures Split(b) == Some(Parts(isObject, [], []))
  {
    assert Words(b, tab, 0) == [];
  }

  /** Header, data and table written one after the other. */
  lemma AssembledSplit(b: Bytes, isObject: bool, d: Bytes, t: seq<word>)
    requires |b| == HEADER + |d| + 4 * |t| && |d| % 4 == 0
    requires HasHeader(b, |b|, isObject, |t|, HEADER + |d|)
    requires b[HEADER..HEADER + |d|] == d && b[HEADER + |d|..] == TableBytes(t)
    ensures Split(b) == Some(Parts(isObject, if t == [] then [] else d, t))
  {
    hide U32, Words, TableBytes;
    var n := HEADER + |d|;
    assert b[n..] == b[n..n + 4 * |t|];
    TableReadsBack(b, n, t);
    SplitIs(b, isObject, d, t);
  }

  lemma EmptyDoc(b: Bytes, tag: bool, isObject: bool)
    requires Split(b) == Some(Parts(tag, [], []))
    ensures Contents(b, isObject) == Some(if isObject then Obj([]) else Arr([]))
  {
    assert ValueSizes([], []) == [] && EntrySizes([], []) == [];
    if isObject {
      assert ObjectDoc([], []).value.members == [];
    } else {
      assert ArrayDoc([], []).value.items == [];
    }
  }
}
