/**
  One document, `{"a":[null,true,-2,"xy"]}`, as binary data, byte by byte.
 */
module Sample {
  import opened Bytes
  import opened Numbers
  import opened Json
  import opened Arena
  import opened Layout

  function Document(): Json {
    Obj([([0x61], Arr([Null, Bool(true), Num(Int(-2)), Str([0x78, 0x79])]))])
  }

  /** The array: header, one string, four value words. */
  const ARRAY: Bytes :=
    [36, 0, 0, 0] + [8, 0, 0, 0] + [20, 0, 0, 0]
    + [2, 0, 0, 0, 0x78, 0x79, 0, 0]
    + [0, 0, 0, 0] + [33, 0, 0, 0] + [0xCA, 0xFF, 0xFF, 0xFF] + [0x83, 1, 0, 0]

  /** The value word of the member and its key. */
  const ENTRY: Bytes := [4, 3, 0, 0, 1, 0, 0, 0, 0x61, 0, 0, 0]

  const HEAD: Bytes := [64, 0, 0, 0, 3, 0, 0, 0, 60, 0, 0, 0]

  const OBJECT: Bytes := HEAD + (ENTRY + ARRAY) + [12, 0, 0, 0]

  lemma Word(b: Bytes, i: nat, x: Bytes, w: word)
    requires i + 4 <= |b| && |x| == 4 && b[i..i + 4] == x
    requires w == x[0] as nat + 0x100 * x[1] as nat + 0x1_0000 * x[2] as nat + 0x100_0000 * x[3] as nat
    ensures U32(b, i) == w
  {
    assert b[i] == b[i..i + 4][0] && b[i + 1] == b[i..i + 4][1];
    assert b[i + 2] == b[i..i + 4][2] && b[i + 3] == b[i..i + 4][3];
  }

  lemma ArrayParts()
    ensures Split(ARRAY) == Some(Parts(false, [2, 0, 0, 0, 0x78, 0x79, 0, 0], [0, 33, 0xFFFF_FFCA, 387]))
  {
    hide U32;
    Word(ARRAY, 0, [36, 0, 0, 0], 36);
    Word(ARRAY, 4, [8, 0, 0, 0], 8);
    Word(ARRAY, 8, [20, 0, 0, 0], 20);
    Word(ARRAY, 20, [0, 0, 0, 0], 0);
    Word(ARRAY, 24, [33, 0, 0, 0], 33);
    Word(ARRAY, 28, [0xCA, 0xFF, 0xFF, 0xFF], 0xFFFF_FFCA);
    Word(ARRAY, 32, [0x83, 1, 0, 0], 387);
    assert Words(ARRAY, 20, 4) == [0, 33, 0xFFFF_FFCA, 387];
    assert ARRAY[12..20] == [2, 0, 0, 0, 0x78, 0x79, 0, 0];
  }

  lemma ArrayValues(d: Bytes)
    requires d == [2, 0, 0, 0, 0x78, 0x79, 0, 0]
    ensures ValueAt(d, 0) == Some(Null) && ValueAt(d, 33) == Some(Bool(true))
    ensures ValueAt(d, 0xFFFF_FFCA) == Some(Num(Int(-2)))
    ensures ValueAt(d, 387) == Some(Str([0x78, 0x79]))
    ensures UsedStorage(d, 0) == UsedStorage(d, 33) == UsedStorage(d, 0xFFFF_FFCA) == 0 && UsedStorage(d, 387) == 8
  {
    hide U32;
    Word(d, 0, [2, 0, 0, 0], 2);
    assert d[4..6] == [0x78, 0x79];
    assert StringBytes(d, 12) == Some([0x78, 0x79]);
  }

  lemma ArrayIsRead()
    ensures Contents(ARRAY, false) == Some(Arr([Null, Bool(true), Num(Int(-2)), Str([0x78, 0x79])]))
  {
    hide Split, ValueAt, UsedStorage, ARRAY;
    var d, t: seq<word> := [2, 0, 0, 0, 0x78, 0x79, 0, 0], [0, 33, 0xFFFF_FFCA, 387];
    ArrayParts();
    ArrayValues(d);
    var s := ValueSizes(d, t);
    assert s == [0, 0, 0, 8];
    SumConcat([0, 0, 0], [8]);
    SumConcat([0, 0], [0]);
    SumConcat([0], [0]);
    SumOne(0);
    SumOne(8);
    assert [0, 0, 0] + [8] == s && [0, 0] + [0] == [0, 0, 0] && [0] + [0] == [0, 0];
    IsArrayDoc(d, t, [Null, Bool(true), Num(Int(-2)), Str([0x78, 0x79])]);
  }

  lemma ObjectParts()
    ensures Split(OBJECT) == Some(Parts(true, ENTRY + ARRAY, [12]))
  {
    hide U32, ARRAY;
    assert |ARRAY| == 36 by {
      ArraySize();
    }
    Word(OBJECT, 0, [64, 0, 0, 0], 64);
    Word(OBJECT, 4, [3, 0, 0, 0], 3);
    Word(OBJECT, 8, [60, 0, 0, 0], 60);
    assert OBJECT[60..64] == [12, 0, 0, 0];
    Word(OBJECT, 60, [12, 0, 0, 0], 12);
    assert Words(OBJECT, 60, 1) == [12];
    assert OBJECT[12..60] == ENTRY + ARRAY;
  }

  lemma ArraySize()
    ensures |ARRAY| == 36 && ARRAY[0..4] == [36, 0, 0, 0]
  {}

  lemma EntryIsRead(d: Bytes)
    requires d == ENTRY + ARRAY
    ensures EntryAt(d, 12) == Some(([0x61], Document().members[0].1)) && EntryStorage(d, 12) == 48 == |d|
  {
    hide U32, ARRAY, Contents;
    ArraySize();
    Word(d, 0, [4, 3, 0, 0], 772);
    Word(d, 4, [1, 0, 0, 0], 1);
    assert d[12..16] == ARRAY[0..4];
    Word(d, 12, [36, 0, 0, 0], 36);
    assert d[8..9] == [0x61];
    assert StringBytes(d, 16) == Some([0x61]);
    assert HasBlock(d, 24) && Block(d, 24) == ARRAY;
    ArrayIsRead();
    BlockContents(d, 24, false);
    NestedValue(d, 772);
    NestedStorage(d, 772);
  }

  /** These 64 bytes are the document: little-endian words, type codes, offsets, padding and all. */
  lemma BinaryForm()
    ensures |OBJECT| == 64 && Doc(OBJECT) == Some(Document())
  {
    hide U32, ARRAY, EntryAt, EntryStorage, ENTRY;
    ArraySize();
    EntrySizeIs();
    ObjectParts();
    EntryIsRead(ENTRY + ARRAY);
    var d, t: seq<word> := ENTRY + ARRAY, [12];
    assert EntrySizes(d, t) == [48];
    SumOne(48);
    OneKey();
    ObjectDocIs(d, t, Document().members);
  }

  lemma EntrySizeIs()
    ensures |ENTRY| == 12
  {}

  lemma OneKey()
    ensures Ascending(Keys(Document().members))
  {}
}
