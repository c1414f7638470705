/**
  Copying values and entries to a new data region, one after the other: the steps of
  `Data::compact`, and why each keeps the meaning.
 */
module Compaction {
  import opened Bytes
  import opened Numbers
  import opened Json
  import opened Arena
  import opened Layout
  import opened Blocks
  import opened Tables

  /** `v.value = x`, which keeps the low 27 bits of `x` and leaves type, flag and the unused bit alone. */
  function SetValueField(w: word, x: nat): (r: word) {
    w % 32 + 32 * (x % TWO_TO_THE_27)
  }

  lemma ValueFieldSet(w: word, x: nat)
    ensures var r := SetValueField(w, x);
            TypeField(r) == TypeField(w) && IntField(r) == IntField(w) && ValueField(r) == x % TWO_TO_THE_27
  {
    var a := w % 32;
    assert w == a + 32 * (w / 32);
    LowDigits(a, w / 32);
    LowDigits(a, x % TWO_TO_THE_27);
  }

  lemma LowDigits(a: nat, x: nat)
    requires a < 32
    ensures (a + 32 * x) % 8 == a % 8 && (a + 32 * x) / 8 % 2 == a / 8 % 2 && (a + 32 * x) / 32 == x
  {
    var h, l := a / 8, a % 8;
    assert a + 32 * x == l + 8 * (h + 4 * x);
    EightDigits(l, h + 4 * x);
    FourTimesIsEven(h, x);
    WholeMultiple(a, x);
  }

  lemma FourTimesIsEven(h: nat, x: nat)
    ensures (h + 4 * x) % 2 == h % 2
  {}

  lemma WholeMultiple(a: nat, x: nat)
    requires a < 32
    ensures (a + 32 * x) / 32 == x
  {}

  lemma EightDigits(l: nat, y: nat)
    requires l < 8
    ensures (l + 8 * y) % 8 == l && (l + 8 * y) / 8 == y
  {}

  /** The payload bytes of a value. */
  function PayloadOf(d: Bytes, w: word): (x: Bytes)
    requires ValueAt(d, w).Some?
    ensures |x| == UsedStorage(d, w)
  {
    var n := UsedStorage(d, w);
    if n == 0 then []
    else
      PayloadInData(d, w);
      d[ValueField(w) - HEADER..ValueField(w) - HEADER + n]
  }

  /** The word that refers to the payload's copy at `off`. */
  function MovedWord(d: Bytes, w: word, off: nat): (r: word) {
    if UsedStorage(d, w) == 0 then w else SetValueField(w, off)
  }

  lemma StringParts(d: Bytes, w: word)
    requires TypeField(w) == T_STRING && ValueAt(d, w).Some?
    ensures var off := ValueField(w);
            && InData(d, off, 4)
            && var n := U32(d, off - HEADER);
               && UsedStorage(d, w) == 4 + Align4(n) && off - HEADER + 4 + Align4(n) <= |d|
               && ValueAt(d, w) == Some(Str(d[off - HEADER + 4..off - HEADER + 4 + n]))
  {}

  lemma StringIs(e: Bytes, off: nat, n: nat)
    requires HEADER <= off && off % 4 == 0 && off - HEADER + 4 + Align4(n) <= |e|
    requires U32(e, off - HEADER) == n
    ensures StringAt(e, off) == Some(Str(e[off - HEADER + 4..off - HEADER + 4 + n]))
  {}

  lemma BlockParts(d: Bytes, w: word)
    requires IsNested(w) && ValueAt(d, w).Some?
    ensures var off := ValueField(w);
            && HEADER <= off && HasBlock(d, off) && ContainerAt(d, off, TypeField(w) == T_OBJECT) == ValueAt(d, w)
            && UsedStorage(d, w) == U32(d, off - HEADER) >= HEADER
            && off - HEADER + U32(d, off - HEADER) <= |d|
            && Block(d, off) == d[off - HEADER..off - HEADER + U32(d, off - HEADER)]
  {
    hide Contents;
    ContainerInData(d, ValueField(w), TypeField(w) == T_OBJECT);
    BlockSizeAligned(Block(d, ValueField(w)), TypeField(w) == T_OBJECT);
  }

  /** A copy that starts with a word and has the same bytes. */
  lemma SamePayload(d: Bytes, o: nat, e: Bytes, q: nat, s: nat, n: nat)
    requires o + s <= |d| && q + s <= |e| && d[o..o + s] == e[q..q + s] && 4 + n <= s
    ensures U32(d, o) == U32(e, q) && d[o + 4..o + 4 + n] == e[q + 4..q + 4 + n]
  {
    SliceOfSlice(d, o, o + s, 0, 4);
    SliceOfSlice(e, q, q + s, 0, 4);
    U32Moved(d, o, e, q);
    SliceOfSlice(d, o, o + s, 4, 4 + n);
    SliceOfSlice(e, q, q + s, 4, 4 + n);
  }

  predicate IsCopied(d: Bytes, w: word, e: Bytes, off: nat)
    requires ValueAt(d, w).Some?
  {
    && HEADER <= off < TWO_TO_THE_27 && off % 4 == 0 && off - HEADER + UsedStorage(d, w) <= |e|
    && e[off - HEADER..off - HEADER + UsedStorage(d, w)] == PayloadOf(d, w)
  }

  lemma MovedString(d: Bytes, w: word, e: Bytes, off: nat)
    requires TypeField(w) == T_STRING && ValueAt(d, w).Some? && IsCopied(d, w, e, off)
    ensures InData(d, ValueField(w), 4) && InData(e, off, 4)
    ensures StringAt(e, off) == ValueAt(d, w) && U32(e, off - HEADER) == U32(d, ValueField(w) - HEADER)
    ensures UsedStorage(d, w) > 0
  {
    hide ValueAt, U32, Align4, UsedStorage, StringAt;
    StringParts(d, w);
    var o, q: nat := ValueField(w) - HEADER, off - HEADER;
    var n := U32(d, o);
    SamePayload(d, o, e, q, 4 + Align4(n), n);
    StringIs(e, off, n);
  }

  lemma MovedBlock(d: Bytes, w: word, e: Bytes, off: nat)
    requires IsNested(w) && ValueAt(d, w).Some? && IsCopied(d, w, e, off)
    ensures ContainerAt(e, off, TypeField(w) == T_OBJECT) == ValueAt(d, w)
    ensures InData(d, ValueField(w), 4) && InData(e, off, 4)
    ensures U32(e, off - HEADER) == U32(d, ValueField(w) - HEADER) && UsedStorage(d, w) > 0
  {
    hide ValueAt, U32, UsedStorage, Contents;
    BlockParts(d, w);
    var o, q: nat := ValueField(w) - HEADER, off - HEADER;
    var s: nat := U32(d, o);
    SamePayload(d, o, e, q, s, 0);
    assert HasBlock(e, off) && Block(e, off) == Block(d, ValueField(w));
  }

  lemma NoPayload(d: Bytes, e: Bytes, w: word)
    requires ValueAt(d, w).Some? && UsedStorage(d, w) == 0
    ensures ValueAt(e, w) == ValueAt(d, w) && UsedStorage(e, w) == 0
  {
    var ty := TypeField(w);
    if ty == T_STRING {
      StringParts(d, w);
    } else if ty == T_ARRAY || ty == T_OBJECT {
      BlockParts(d, w);
    }
  }

  lemma MovedDouble(d: Bytes, w: word, e: Bytes, off: nat, r: word)
    requires TypeField(w) == T_DOUBLE && IntField(w) != 1 && ValueAt(d, w).Some? && IsCopied(d, w, e, off)
    requires TypeField(r) == T_DOUBLE && IntField(r) != 1 && ValueField(r) == off
    ensures ValueAt(e, r) == ValueAt(d, w)
  {
    hide TypeField, ValueField, IntField, Canonical;
    assert PayloadOf(d, w) == d[ValueField(w) - HEADER..ValueField(w) - HEADER + 8];
  }

  /** A value whose payload has been copied means what it meant. */
  lemma MovedValue(d: Bytes, w: word, e: Bytes, off: nat)
    requires ValueAt(d, w).Some? && IsCopied(d, w, e, off)
    ensures ValueAt(e, MovedWord(d, w, off)) == ValueAt(d, w)
  {
    if UsedStorage(d, w) == 0 {
      NoPayload(d, e, w);
    } else {
      MovedPayload(d, w, e, off, MovedWord(d, w, off));
    }
  }

  lemma MovedPayload(d: Bytes, w: word, e: Bytes, off: nat, r: word)
    requires ValueAt(d, w).Some? && IsCopied(d, w, e, off) && UsedStorage(d, w) > 0
    requires off < TWO_TO_THE_27 && r == SetValueField(w, off)
    ensures ValueAt(e, r) == ValueAt(d, w)
  {
    hide ContainerAt, StringAt, U32, Canonical, IsCopied;
    ValueFieldSet(w, off);
    var ty := TypeField(w);
    if ty == T_STRING {
      MovedString(d, w, e, off);
    } else if ty == T_ARRAY || ty == T_OBJECT {
      MovedBlock(d, w, e, off);
    } else {
      MovedDouble(d, w, e, off, r);
    }
  }

  lemma WordStorage(d: Bytes, w: word)
    requires TypeField(w) != T_STRING && !IsNested(w)
    ensures UsedStorage(d, w) == if TypeField(w) == T_DOUBLE && IntField(w) != 1 then 8 else 0
  {
    hide TypeField, IntField;
  }

  lemma MovedStorage(d: Bytes, w: word, e: Bytes, off: nat)
    requires ValueAt(d, w).Some? && IsCopied(d, w, e, off)
    ensures UsedStorage(e, MovedWord(d, w, off)) == UsedStorage(d, w)
  {
    hide SetValueField, ValueField, IntField, TypeField, Contents, U32, ValueAt, UsedStorage, Align4, Block, StringAt;
    ValueFieldSet(w, off);
    var ty, r := TypeField(w), MovedWord(d, w, off);
    if UsedStorage(d, w) == 0 {
      NoPayload(d, e, w);
    } else if ty == T_STRING {
      MovedString(d, w, e, off);
      StringStorage(d, w);
      StringStorage(e, r);
    } else if IsNested(w) {
      MovedBlock(d, w, e, off);
      NestedStorage(d, w);
      NestedStorage(e, r);
    } else {
      WordStorage(d, w);
      WordStorage(e, r);
    }
  }

  // ---------------------------------------------------------------------
  // Arrays: the first `i` items of table `t` over `d` have been copied to `e`, `u`
  // ---------------------------------------------------------------------

  predicate ItemsReadable(d: Bytes, t: seq<word>) {
    forall k :: 0 <= k < |t| ==> ValueAt(d, t[k]).Some?
  }

  /** Where the payload of item `k` goes. */
  function ItemOffset(d: Bytes, t: seq<word>, k: nat): (off: nat)
    requires k <= |t|
  {
    HEADER + Sum(ValueSizes(d, t)[..k])
  }

  lemma NextItem(d: Bytes, t: seq<word>, i: nat)
    requires i < |t|
    ensures ItemOffset(d, t, i + 1) == ItemOffset(d, t, i) + UsedStorage(d, t[i])
  {
    hide UsedStorage;
    NextSum(ValueSizes(d, t), i);
  }

  /** The payloads of the first `i` items, one behind the other. */
  function ItemsCopy(d: Bytes, t: seq<word>, i: nat): (e: Bytes)
    requires ItemsReadable(d, t) && i <= |t|
    ensures HEADER + |e| == ItemOffset(d, t, i)
  {
    if i == 0 then []
    else
      NextItem(d, t, i - 1);
      ItemsCopy(d, t, i - 1) + PayloadOf(d, t[i - 1])
  }

  /** The words written for them. */
  function ItemWords(d: Bytes, t: seq<word>, i: nat): (u: seq<word>)
    requires i <= |t|
    ensures |u| == i
  {
    seq(i, k requires 0 <= k < i => MovedWord(d, t[k], ItemOffset(d, t, k)))
  }

  /** Every payload goes where 27 bits can refer to it. */
  predicate ArrayFits(d: Bytes, t: seq<word>) {
    forall k :: 0 <= k < |t| && UsedStorage(d, t[k]) > 0 ==> ItemOffset(d, t, k) < TWO_TO_THE_27
  }

  /** A word that has a payload refers to the place its payload was copied to exactly when that is so. */
  lemma ItemWordsPoint(d: Bytes, t: seq<word>, k: nat)
    requires k < |t| && UsedStorage(d, t[k]) > 0
    ensures ValueField(ItemWords(d, t, |t|)[k]) == ItemOffset(d, t, k) <==> ItemOffset(d, t, k) < TWO_TO_THE_27
  {
    hide UsedStorage, SetValueField;
    ValueFieldSet(t[k], ItemOffset(d, t, k));
  }

  ghost predicate ItemsCopied(d: Bytes, t: seq<word>, vs: seq<Json>, i: nat, e: Bytes, u: seq<word>) {
    && |u| == i <= |t| == |vs|
    && |e| % 4 == 0 && HEADER + |e| == ItemOffset(d, t, i)
    && forall k :: 0 <= k < i ==> ItemAtOffset(d, t, vs, k, e, u[k])
  }

  /** The word `w` over `e` is a copy of item `k`, with its payload at the offset set aside for it. */
  ghost predicate ItemAtOffset(d: Bytes, t: seq<word>, vs: seq<Json>, k: nat, e: Bytes, w: word)
    requires k < |t| == |vs|
  {
    && ValueAt(e, w) == Some(vs[k]) && UsedStorage(e, w) == UsedStorage(d, t[k])
    && (UsedStorage(e, w) > 0 ==> ValueField(w) == ItemOffset(d, t, k))
  }

  lemma ItemCopied(d: Bytes, t: seq<word>, vs: seq<Json>, i: nat, e: Bytes, u: seq<word>)
    requires ItemsCopied(d, t, vs, i, e, u) && i < |t| && ValueAt(d, t[i]) == Some(vs[i])
    requires UsedStorage(d, t[i]) > 0 ==> ItemOffset(d, t, i) < TWO_TO_THE_27
    ensures ItemsCopied(d, t, vs, i + 1, e + PayloadOf(d, t[i]), u + [MovedWord(d, t[i], ItemOffset(d, t, i))])
  {
    hide ValueAt, UsedStorage, PayloadOf, MovedWord, ItemOffset;
    var x, w := PayloadOf(d, t[i]), MovedWord(d, t[i], ItemOffset(d, t, i));
    var e', u' := e + x, u + [w];
    forall k | 0 <= k < i + 1
      ensures ItemAtOffset(d, t, vs, k, e', u'[k])
    {
      if k < i {
        assert ItemAtOffset(d, t, vs, k, e, u[k]);
        ValueGrows(e, x, u[k]);
        StorageGrows(e, x, u[k]);
      } else {
        MovedItem(d, t, vs, i, e, x);
      }
    }
    UsedStorageAligned(d, t[i]);
    NextItem(d, t, i);
  }

  lemma MovedItem(d: Bytes, t: seq<word>, vs: seq<Json>, i: nat, e: Bytes, x: Bytes)
    requires i < |t| == |vs| && |e| % 4 == 0 && HEADER + |e| == ItemOffset(d, t, i)
    requires ValueAt(d, t[i]) == Some(vs[i]) && x == PayloadOf(d, t[i])
    requires UsedStorage(d, t[i]) > 0 ==> ItemOffset(d, t, i) < TWO_TO_THE_27
    ensures ItemAtOffset(d, t, vs, i, e + x, MovedWord(d, t[i], ItemOffset(d, t, i)))
  {
    hide ValueAt, UsedStorage, PayloadOf, SetValueField, ItemOffset;
    var off := ItemOffset(d, t, i);
    if UsedStorage(d, t[i]) == 0 {
      NoPayload(d, e + x, t[i]);
    } else {
      assert (e + x)[|e|..|e| + |x|] == x;
      assert IsCopied(d, t[i], e + x, off);
      MovedValue(d, t[i], e + x, off);
      MovedStorage(d, t[i], e + x, off);
      ValueFieldSet(t[i], off);
    }
  }

  lemma {:induction false} ItemsCopiedUpTo(d: Bytes, t: seq<word>, vs: seq<Json>, i: nat)
    requires ArrayDoc(d, t) == Some(Arr(vs)) && ItemsReadable(d, t) && ArrayFits(d, t) && i <= |t|
    ensures ItemsCopied(d, t, vs, i, ItemsCopy(d, t, i), ItemWords(d, t, i))
  {
    hide ValueAt, ArrayDoc, UsedStorage, MovedWord, ValueSizes, PayloadOf;
    if i > 0 {
      ItemsCopiedUpTo(d, t, vs, i - 1);
      ArrayItem(d, t, i - 1);
      ItemCopied(d, t, vs, i - 1, ItemsCopy(d, t, i - 1), ItemWords(d, t, i - 1));
      assert ItemWords(d, t, i) == ItemWords(d, t, i - 1) + [MovedWord(d, t[i - 1], ItemOffset(d, t, i - 1))];
    } else {
      assert ItemWords(d, t, 0) == [];
    }
  }

  lemma NextSum(s: seq<nat>, i: nat)
    requires i < |s|
    ensures Sum(s[..i + 1]) == Sum(s[..i]) + s[i]
  {
    SumConcat(s[..i], [s[i]]);
    SumOne(s[i]);
    assert s[..i + 1] == s[..i] + [s[i]];
  }

  /** The payloads of an array lie one behind the other, in the order of the table, and fill the data region. */
  predicate PackedItems(d: Bytes, t: seq<word>) {
    && HEADER + |d| == ItemOffset(d, t, |t|)
    && forall k :: 0 <= k < |t| && UsedStorage(d, t[k]) > 0 ==> ValueField(t[k]) == ItemOffset(d, t, k)
  }

  /** An array whose payloads fit their offsets is copied without a change, and packed. */
  lemma AllItemsCopied(d: Bytes, t: seq<word>, vs: seq<Json>)
    requires ArrayDoc(d, t) == Some(Arr(vs)) && ItemsReadable(d, t) && ArrayFits(d, t)
    ensures var e, u := ItemsCopy(d, t, |t|), ItemWords(d, t, |t|);
            ArrayDoc(e, u) == Some(Arr(vs)) && PackedItems(e, u)
  {
    hide ValueAt, UsedStorage, ItemsCopy, ItemWords;
    var e, u := ItemsCopy(d, t, |t|), ItemWords(d, t, |t|);
    ItemsCopiedUpTo(d, t, vs, |t|);
    assert ValueSizes(e, u) == ValueSizes(d, t);
    assert ValueSizes(d, t)[..|t|] == ValueSizes(d, t);
    IsArrayDoc(e, u, vs);
  }

  // ---------------------------------------------------------------------
  // Objects: the first `i` entries of table `t` over `d` have been copied to `e`, `u`
  // ---------------------------------------------------------------------

  predicate EntriesReadable(d: Bytes, t: seq<word>) {
    forall k :: 0 <= k < |t| ==> EntryAt(d, t[k]).Some?
  }

  /** Where entry `k` goes. */
  function EntryOffset(d: Bytes, t: seq<word>, k: nat): (off: nat)
    requires k <= |t|
  {
    HEADER + Sum(EntrySizes(d, t)[..k])
  }

  lemma NextEntry(d: Bytes, t: seq<word>, i: nat)
    requires i < |t|
    ensures EntryOffset(d, t, i + 1) == EntryOffset(d, t, i) + EntryStorage(d, t[i])
  {
    hide EntryStorage;
    NextSum(EntrySizes(d, t), i);
  }

  /** The first `i` entries, each with its payload behind it. */
  function EntriesCopy(d: Bytes, t: seq<word>, i: nat): (e: Bytes)
    requires EntriesReadable(d, t) && i <= |t|
    ensures HEADER + |e| == EntryOffset(d, t, i)
  {
    if i == 0 then []
    else
      NextEntry(d, t, i - 1);
      EntriesCopy(d, t, i - 1) + EntryCopy(d, t[i - 1], EntryOffset(d, t, i - 1))
  }

  /** The words written for them. */
  function EntryWords(d: Bytes, t: seq<word>, i: nat): (u: seq<word>)
    requires i <= |t|
    ensures |u| == i
  {
    seq(i, k requires 0 <= k < i => (EntryOffset(d, t, k) % TWO_TO_THE_32) as word)
  }

  /** Where the payload of entry `k` goes. */
  function EntryPayloadOffset(d: Bytes, t: seq<word>, k: nat): (off: nat)
    requires k < |t|
  {
    EntryOffset(d, t, k) + EntrySize(d, t[k])
  }

  predicate HasPayload(d: Bytes, en: word) {
    EntryStorage(d, en) > EntrySize(d, en)
  }

  /** Every payload goes where 27 bits can refer to it. */
  predicate ObjectFits(d: Bytes, t: seq<word>) {
    forall k :: 0 <= k < |t| && HasPayload(d, t[k]) ==> EntryPayloadOffset(d, t, k) < TWO_TO_THE_27
  }

  ghost predicate EntriesCopied(d: Bytes, t: seq<word>, ms: seq<Member>, i: nat, e: Bytes, u: seq<word>) {
    && |u| == i <= |t| == |ms|
    && |e| % 4 == 0 && HEADER + |e| == EntryOffset(d, t, i)
    && forall k :: 0 <= k < i ==> EntryAtOffset(d, t, ms, k, e, u[k])
  }

  /** The entry `en` of `e` is a copy of entry `k`, at its offset and with its payload right behind it. */
  ghost predicate EntryAtOffset(d: Bytes, t: seq<word>, ms: seq<Member>, k: nat, e: Bytes, en: word)
    requires k < |t| == |ms|
  {
    && EntryAt(e, en) == Some(ms[k]) && EntryStorage(e, en) == EntryStorage(d, t[k])
    && en == EntryOffset(d, t, k) && PayloadBehind(e, en)
  }

  /** The payload of an entry, if it has one, starts where the entry ends. */
  predicate PayloadBehind(d: Bytes, en: word) {
    InData(d, en, 4)
    && var w := U32(d, en - HEADER);
       UsedStorage(d, w) > 0 ==> ValueField(w) == en + EntrySize(d, en)
  }

  lemma EntryParts(d: Bytes, en: word)
    requires EntryAt(d, en).Some?
    ensures HEADER <= en && en % 4 == 0 && en - HEADER + EntrySize(d, en) <= |d|
    ensures ValueAt(d, U32(d, en - HEADER)).Some?
    ensures StringBytes(d, en + 4).Some? && EntrySize(d, en) == 8 + Align4(U32(d, en - HEADER + 4))
    ensures EntryAt(d, en) == Some((StringBytes(d, en + 4).value, ValueAt(d, U32(d, en - HEADER)).value))
    ensures EntryStorage(d, en) == EntrySize(d, en) + UsedStorage(d, U32(d, en - HEADER))
  {
    hide ValueAt, UsedStorage;
  }

  /** The bytes of an entry and its payload at `off`, with the value word updated. */
  function EntryCopy(d: Bytes, en: word, off: nat): (x: Bytes)
    requires EntryAt(d, en).Some?
    ensures |x| == EntryStorage(d, en)
  {
    EntryParts(d, en);
    var w := U32(d, en - HEADER);
    LE4(MovedWord(d, w, off + EntrySize(d, en))) + d[en - HEADER + 4..en - HEADER + EntrySize(d, en)] + PayloadOf(d, w)
  }

  lemma KeyCopied(d: Bytes, en: word, e: Bytes, off: nat)
    requires EntryAt(d, en).Some? && HEADER <= off && off % 4 == 0 && off - HEADER + EntrySize(d, en) <= |e|
    requires e[off - HEADER + 4..off - HEADER + EntrySize(d, en)] == d[en - HEADER + 4..en - HEADER + EntrySize(d, en)]
    ensures StringBytes(e, off + 4) == StringBytes(d, en + 4)
    ensures U32(e, off - HEADER + 4) == U32(d, en - HEADER + 4)
  {
    hide EntryAt, ValueAt, UsedStorage, U32, Align4, EntryStorage, EntrySize;
    EntryParts(d, en);
    var o, q: nat := en - HEADER + 4, off - HEADER + 4;
    var n := U32(d, o);
    SamePayload(d, o, e, q, 4 + Align4(n), n);
  }

  /** The three pieces of a copied entry, found where they were put. */
  lemma CopyPieces(d: Bytes, en: word, e: Bytes)
    requires EntryAt(d, en).Some?
    requires ValueAt(d, U32(d, en - HEADER)).Some?
    ensures var off, w := HEADER + |e|, U32(d, en - HEADER);
            var n := EntrySize(d, en);
            var f := e + EntryCopy(d, en, off);
            && n >= 8 && |f| == |e| + n + UsedStorage(d, w) && U32(f, |e|) == MovedWord(d, w, off + n)
            && f[|e| + 4..|e| + n] == d[en - HEADER + 4..en - HEADER + n]
            && f[|e| + n..|e| + n + UsedStorage(d, w)] == PayloadOf(d, w)
  {
    hide EntryAt, ValueAt, UsedStorage, U32, LE4, EntryStorage, PayloadOf, MovedWord, EntrySize;
    EntryParts(d, en);
    var off, w, n := HEADER + |e|, U32(d, en - HEADER), EntrySize(d, en);
    var a, b, c := LE4(MovedWord(d, w, off + n)), d[en - HEADER + 4..en - HEADER + n], PayloadOf(d, w);
    var f := e + (a + b + c);
    assert f[|e|..|e| + 4] == a;
    assert f[|e| + 4..|e| + n] == b;
    assert f[|e| + n..|e| + n + |c|] == c;
    U32Moved(f, |e|, a, 0);
    U32OfLE4(MovedWord(d, w, off + n));
  }

  lemma EntryIs(f: Bytes, off: word, key: Key, v: Json)
    requires InData(f, off, 8) && StringBytes(f, off + 4) == Some(key)
    requires ValueAt(f, U32(f, off - HEADER)) == Some(v)
    ensures EntryAt(f, off) == Some((key, v))
    ensures EntryStorage(f, off) == 8 + Align4(U32(f, off - HEADER + 4)) + UsedStorage(f, U32(f, off - HEADER))
  {
    hide ValueAt, UsedStorage, StringBytes;
  }

  /** What the entry's value word refers to has come along, and lies right behind the entry. */
  lemma EntryValueMoved(d: Bytes, w: word, f: Bytes, off: nat)
    requires ValueAt(d, w).Some? && HEADER <= off && off % 4 == 0 && off - HEADER + UsedStorage(d, w) <= |f|
    requires f[off - HEADER..off - HEADER + UsedStorage(d, w)] == PayloadOf(d, w)
    requires UsedStorage(d, w) > 0 ==> off < TWO_TO_THE_27
    ensures var r := MovedWord(d, w, off);
            && ValueAt(f, r) == ValueAt(d, w) && UsedStorage(f, r) == UsedStorage(d, w)
            && (UsedStorage(f, r) > 0 ==> ValueField(r) == off)
  {
    hide ValueAt, UsedStorage, PayloadOf, SetValueField;
    if UsedStorage(d, w) == 0 {
      NoPayload(d, f, w);
    } else {
      assert IsCopied(d, w, f, off);
      MovedValue(d, w, f, off);
      MovedStorage(d, w, f, off);
      ValueFieldSet(w, off);
    }
  }

  lemma EntryMoved(d: Bytes, en: word, e: Bytes)
    requires EntryAt(d, en).Some? && |e| % 4 == 0 && HEADER + |e| < TWO_TO_THE_32
    requires HasPayload(d, en) ==> HEADER + |e| + EntrySize(d, en) < TWO_TO_THE_27
    ensures var off := HEADER + |e|;
            var f := e + EntryCopy(d, en, off);
            && EntryAt(f, off) == EntryAt(d, en) && EntryStorage(f, off) == EntryStorage(d, en)
            && PayloadBehind(f, off)
  {
    hide EntryAt, ValueAt, UsedStorage, U32, EntryStorage, PayloadOf, MovedWord, EntrySize, EntryCopy, StringBytes;
    EntryParts(d, en);
    CopyPieces(d, en, e);
    var off: word, w, n := HEADER + |e|, U32(d, en - HEADER), EntrySize(d, en);
    var f := e + EntryCopy(d, en, off);
    KeyCopied(d, en, f, off);
    EntrySizeAligned(d, en);
    EntryValueMoved(d, w, f, off + n);
    EntryIs(f, off, StringBytes(d, en + 4).value, ValueAt(d, w).value);
    EntryParts(f, off);
  }

  lemma EntrySizeAligned(d: Bytes, en: word)
    ensures EntrySize(d, en) % 4 == 0
  {}

  lemma PayloadStaysBehind(d: Bytes, x: Bytes, en: word)
    requires EntryAt(d, en).Some? && PayloadBehind(d, en)
    ensures PayloadBehind(d + x, en)
  {
    hide ValueAt, UsedStorage, StringBytes;
    EntryParts(d, en);
    U32OfPrefix(d, x, en - HEADER);
    StorageGrows(d, x, U32(d, en - HEADER));
    EntryStorageGrows(d, x, en);
  }

  lemma EntryCopied(d: Bytes, t: seq<word>, ms: seq<Member>, i: nat, e: Bytes, u: seq<word>)
    requires EntriesCopied(d, t, ms, i, e, u) && i < |t| && EntryAt(d, t[i]) == Some(ms[i])
    requires HasPayload(d, t[i]) ==> EntryPayloadOffset(d, t, i) < TWO_TO_THE_27
    requires EntryOffset(d, t, i) < TWO_TO_THE_32
    ensures EntriesCopied(d, t, ms, i + 1, e + EntryCopy(d, t[i], EntryOffset(d, t, i)),
                          u + [EntryOffset(d, t, i) as word])
  {
    hide EntryAt, EntryStorage, EntryCopy, EntrySize, HasPayload, PayloadBehind, EntryOffset;
    var x := EntryCopy(d, t[i], EntryOffset(d, t, i));
    var e', u' := e + x, u + [EntryOffset(d, t, i) as word];
    EntryMoved(d, t[i], e);
    forall k | 0 <= k < i + 1
      ensures EntryAtOffset(d, t, ms, k, e', u'[k])
    {
      if k < i {
        assert EntryAtOffset(d, t, ms, k, e, u[k]);
        EntryGrows(e, x, u[k]);
        EntryStorageGrows(e, x, u[k]);
        PayloadStaysBehind(e, x, u[k]);
      }
    }
    StorageAligned(d, t[i]);
    NextEntry(d, t, i);
  }

  lemma {:induction false} EntriesCopiedUpTo(d: Bytes, t: seq<word>, ms: seq<Member>, i: nat)
    requires Spells(d, t, ms) && EntriesReadable(d, t) && ObjectFits(d, t) && i <= |t|
    requires EntryOffset(d, t, |t|) < TWO_TO_THE_32
    ensures EntriesCopied(d, t, ms, i, EntriesCopy(d, t, i), EntryWords(d, t, i))
  {
    hide EntryAt, EntryStorage, EntryCopy, EntrySizes, EntrySize, HasPayload;
    if i > 0 {
      EntriesCopiedUpTo(d, t, ms, i - 1);
      EntryBelowEnd(d, t, i - 1);
      EntryCopied(d, t, ms, i - 1, EntriesCopy(d, t, i - 1), EntryWords(d, t, i - 1));
      assert EntryWords(d, t, i) == EntryWords(d, t, i - 1) + [EntryOffset(d, t, i - 1) as word];
    } else {
      assert EntryWords(d, t, 0) == [];
    }
  }

  lemma EntryBelowEnd(d: Bytes, t: seq<word>, k: nat)
    requires k < |t|
    ensures EntryOffset(d, t, k) + EntryStorage(d, t[k]) <= EntryOffset(d, t, |t|)
  {
    hide EntryStorage;
    SumPrefix(EntrySizes(d, t), k);
    assert EntrySizes(d, t)[..|t|] == EntrySizes(d, t);
  }

  lemma StorageAligned(d: Bytes, en: word)
    ensures EntryStorage(d, en) % 4 == 0
  {
    hide UsedStorage, EntrySize;
    if InData(d, en, 4) {
      UsedStorageAligned(d, U32(d, en - HEADER));
    }
  }

  /** The entries of an object lie one behind the other, in the order of the table, and fill the data region. */
  predicate PackedEntries(d: Bytes, t: seq<word>) {
    && HEADER + |d| == EntryOffset(d, t, |t|)
    && forall k :: 0 <= k < |t| ==> t[k] == EntryOffset(d, t, k) && PayloadBehind(d, t[k])
  }

  /** An object whose payloads fit their offsets is copied without a change, and packed. */
  lemma AllEntriesCopied(d: Bytes, t: seq<word>, ms: seq<Member>)
    requires ObjectDoc(d, t) == Some(Obj(ms)) && EntriesReadable(d, t) && ObjectFits(d, t)
    requires EntryOffset(d, t, |t|) < TWO_TO_THE_32
    ensures var e, u := EntriesCopy(d, t, |t|), EntryWords(d, t, |t|);
            ObjectDoc(e, u) == Some(Obj(ms)) && PackedEntries(e, u)
  {
    hide EntryAt, EntryStorage, EntriesCopy, EntryWords, PayloadBehind;
    var e, u := EntriesCopy(d, t, |t|), EntryWords(d, t, |t|);
    ObjectDocIs(d, t, ms);
    EntriesCopiedUpTo(d, t, ms, |t|);
    assert EntrySizes(e, u) == EntrySizes(d, t);
    assert EntrySizes(d, t)[..|t|] == EntrySizes(d, t);
    ObjectDocIs(e, u, ms);
  }

  // ---------------------------------------------------------------------
  // The parts of a container
  // ---------------------------------------------------------------------

  /** Every payload goes where 27 bits can refer to it. */
  predicate Fits(p: Parts) {
    if p.isObject then ObjectFits(p.data, p.table) else ArrayFits(p.data, p.table)
  }

  /** Storage in use, in the order of the table, and nothing else in the data region. */
  predicate Packed(p: Parts) {
    if p.isObject then PackedEntries(p.data, p.table) else PackedItems(p.data, p.table)
  }

  /** Everything in use can be read. */
  predicate Readable(p: Parts) {
    if p.isObject then EntriesReadable(p.data, p.table) else ItemsReadable(p.data, p.table)
  }

  /** What `Data::compact` makes of the parts of a root. */
  function Compacted(p: Parts): (q: Parts)
    requires Readable(p)
    ensures q.isObject == p.isObject && |q.table| == |p.table|
  {
    var n := |p.table|;
    if p.isObject then Parts(true, EntriesCopy(p.data, p.table, n), EntryWords(p.data, p.table, n))
    else Parts(false, ItemsCopy(p.data, p.table, n), ItemWords(p.data, p.table, n))
  }

  function DocOf(p: Parts): Option<Json> {
    if p.isObject then ObjectDoc(p.data, p.table) else ArrayDoc(p.data, p.table)
  }

  /** Compaction keeps what a root stands for, as long as no offset is cut to 27 bits. */
  lemma CompactedFits(p: Parts)
    requires DocOf(p).Some? && Readable(p) && Fits(p) && |p.data| < 0x8000_0000
    ensures DocOf(Compacted(p)) == DocOf(p) && Packed(Compacted(p))
  {
    hide ValueAt, EntryAt, UsedStorage, EntryStorage;
    if p.isObject {
      ObjectReserveFits(p.data, p.table, DocOf(p).value.members);
      AllEntriesCopied(p.data, p.table, DocOf(p).value.members);
    } else {
      AllItemsCopied(p.data, p.table, DocOf(p).value.items);
    }
  }

  lemma DocReadable(p: Parts)
    requires DocOf(p).Some?
    ensures Readable(p)
    ensures |Compacted(p).data| <= |p.data| && |Compacted(p).data| % 4 == 0
  {
    hide ValueAt, EntryAt, UsedStorage, EntryStorage;
    if p.isObject {
      ObjectReserveFits(p.data, p.table, DocOf(p).value.members);
      ObjectDocIs(p.data, p.table, DocOf(p).value.members);
    } else {
      ArrayReserveFits(p.data, p.table, DocOf(p).value.items);
    }
  }

  // ---------------------------------------------------------------------
  // When offsets fit
  // ---------------------------------------------------------------------

  lemma {:induction false} EntriesCopyGrows(d: Bytes, t: seq<word>, i: nat, j: nat)
    requires EntriesReadable(d, t) && i <= j <= |t|
    ensures EntriesCopy(d, t, i) <= EntriesCopy(d, t, j)
  {
    hide EntryAt, EntryStorage, EntryCopy, EntryOffset;
    if i < j {
      EntriesCopyGrows(d, t, i, j - 1);
    }
  }

  /** The value word of entry `k`, found in the copy. */
  lemma EntryWordCopied(d: Bytes, t: seq<word>, k: nat)
    requires EntriesReadable(d, t) && k < |t| && HEADER <= t[k] && t[k] - HEADER + 4 <= |d|
    ensures var e, o := EntriesCopy(d, t, |t|), EntryOffset(d, t, k) - HEADER;
            && 0 <= o && o + 4 <= |e|
            && U32(e, o) == MovedWord(d, U32(d, t[k] - HEADER), EntryPayloadOffset(d, t, k))
  {
    hide EntryAt, ValueAt, EntryStorage, EntrySize, UsedStorage, EntryCopy, MovedWord, U32, EntryOffset;
    var e, f := EntriesCopy(d, t, k), EntriesCopy(d, t, k + 1);
    EntryParts(d, t[k]);
    CopyPieces(d, t[k], e);
    EntriesCopyGrows(d, t, k + 1, |t|);
    U32Moved(EntriesCopy(d, t, |t|), |e|, f, |e|);
  }

  /** The word copied for slot `k` refers to the place its payload has been copied to. */
  predicate RefersToCopy(p: Parts, k: nat)
    requires Readable(p) && k < |p.table|
  {
    if p.isObject then
      var o := EntryOffset(p.data, p.table, k) - HEADER;
      0 <= o && o + 4 <= |Compacted(p).data|
      && ValueField(U32(Compacted(p).data, o)) == EntryPayloadOffset(p.data, p.table, k)
    else ValueField(Compacted(p).table[k]) == ItemOffset(p.data, p.table, k)
  }

  predicate SlotHasPayload(p: Parts, k: nat)
    requires k < |p.table|
  {
    if p.isObject then HasPayload(p.data, p.table[k]) else UsedStorage(p.data, p.table[k]) > 0
  }

  /** All that has been copied is referred to where it is, exactly when the offsets fit. */
  lemma CopiesAreReferred(p: Parts)
    requires DocOf(p).Some? && Readable(p)
    ensures Fits(p) <==> forall k :: 0 <= k < |p.table| && SlotHasPayload(p, k) ==> RefersToCopy(p, k)
  {
    hide Compacted, EntryAt, ValueAt, EntryStorage, UsedStorage, ItemOffset, EntryPayloadOffset, DocOf, EntrySize;
    forall k | 0 <= k < |p.table| && SlotHasPayload(p, k)
      ensures RefersToCopy(p, k) <==>
              (if p.isObject then EntryPayloadOffset(p.data, p.table, k) else ItemOffset(p.data, p.table, k))
              < TWO_TO_THE_27
    {
      CopyIsReferred(p, k);
    }
  }

  lemma CopyIsReferred(p: Parts, k: nat)
    requires Readable(p) && k < |p.table| && SlotHasPayload(p, k)
    ensures RefersToCopy(p, k) <==>
            (if p.isObject then EntryPayloadOffset(p.data, p.table, k) else ItemOffset(p.data, p.table, k))
            < TWO_TO_THE_27
  {
    hide EntryAt, ValueAt, EntryStorage, UsedStorage, ItemOffset, EntryOffset, EntrySize, EntriesCopy, ItemsCopy,
        SetValueField, U32, EntryWords;
    if p.isObject {
      EntryParts(p.data, p.table[k]);
      EntryWordCopied(p.data, p.table, k);
      ValueFieldSet(U32(p.data, p.table[k] - HEADER), EntryPayloadOffset(p.data, p.table, k));
    } else {
      ItemWordsPoint(p.data, p.table, k);
    }
  }

  /** No offset is cut in a container of the size that edits keep to. */
  lemma SmallFits(p: Parts)
    requires DocOf(p).Some? && HEADER + |p.data| <= TWO_TO_THE_27
    ensures Fits(p)
  {
    hide EntryAt, ValueAt, EntryStorage, UsedStorage, EntryOffset, ItemOffset, EntrySize;
    if p.isObject {
      ObjectReserveFits(p.data, p.table, DocOf(p).value.members);
      forall k | 0 <= k < |p.table| && HasPayload(p.data, p.table[k])
        ensures EntryPayloadOffset(p.data, p.table, k) < TWO_TO_THE_27
      {
        EntryBelowEnd(p.data, p.table, k);
      }
    } else {
      ArrayReserveFits(p.data, p.table, DocOf(p).value.items);
      forall k | 0 <= k < |p.table| && UsedStorage(p.data, p.table[k]) > 0
        ensures ItemOffset(p.data, p.table, k) < TWO_TO_THE_27
      {
        ItemBelowEnd(p.data, p.table, k);
      }
    }
  }

  lemma RemovedPrefix(s: seq<nat>, i: nat, k: nat)
    requires i < |s| && k < |s| - 1
    ensures Sum(Removed(s, i)[..k]) <= Sum(s[..if k < i then k else k + 1])
  {
    var r := Removed(s, i);
    if k <= i {
      assert r[..k] == s[..k];
      NextSum(s, k);
    } else {
      assert r[..k] == Removed(s[..k + 1], i);
      SumRemoved(s[..k + 1], i);
    }
  }

  /** Removing a table word only moves payloads to lower offsets. */
  lemma RemovedFits(p: Parts, i: nat)
    requires Fits(p) && i < |p.table|
    ensures Fits(Parts(p.isObject, p.data, Removed(p.table, i)))
  {
    hide EntryStorage, UsedStorage, EntrySize, Sum;
    var d, t, u := p.data, p.table, Removed(p.table, i);
    assert ValueSizes(d, u) == Removed(ValueSizes(d, t), i) && EntrySizes(d, u) == Removed(EntrySizes(d, t), i);
    forall k | 0 <= k < |u|
      ensures ItemOffset(d, u, k) <= ItemOffset(d, t, if k < i then k else k + 1)
      ensures EntryOffset(d, u, k) <= EntryOffset(d, t, if k < i then k else k + 1)
    {
      RemovedPrefix(ValueSizes(d, t), i, k);
      RemovedPrefix(EntrySizes(d, t), i, k);
    }
  }

  lemma SumPrefix(s: seq<nat>, i: nat)
    requires i < |s|
    ensures Sum(s[..i]) + s[i] <= Sum(s)
  {
    NextSum(s, i);
    SumConcat(s[..i + 1], s[i + 1..]);
    assert s[..i + 1] + s[i + 1..] == s;
  }

  lemma ItemBelowEnd(d: Bytes, t: seq<word>, k: nat)
    requires k < |t|
    ensures ItemOffset(d, t, k) + UsedStorage(d, t[k]) <= ItemOffset(d, t, |t|)
  {
    hide UsedStorage;
    SumPrefix(ValueSizes(d, t), k);
    assert ValueSizes(d, t)[..|t|] == ValueSizes(d, t);
  }

  lemma {:induction false} SumAligned(s: seq<nat>)
    requires forall k :: 0 <= k < |s| ==> s[k] % 4 == 0
    ensures Sum(s) % 4 == 0
  {
    if s != [] {
      SumAligned(s[1..]);
    }
  }

  lemma ArrayReserveFits(d: Bytes, t: seq<word>, vs: seq<Json>)
    requires ArrayDoc(d, t) == Some(Arr(vs))
    ensures Sum(ValueSizes(d, t)) <= |d| && Sum(ValueSizes(d, t)) % 4 == 0
    ensures ItemOffset(d, t, |t|) == HEADER + Sum(ValueSizes(d, t))
  {
    hide UsedStorage, ValueAt;
    forall k | 0 <= k < |t|
      ensures ValueSizes(d, t)[k] % 4 == 0
    {
      UsedStorageAligned(d, t[k]);
    }
    SumAligned(ValueSizes(d, t));
    assert ValueSizes(d, t)[..|t|] == ValueSizes(d, t);
  }

  lemma ObjectReserveFits(d: Bytes, t: seq<word>, ms: seq<Member>)
    requires ObjectDoc(d, t) == Some(Obj(ms))
    ensures Sum(EntrySizes(d, t)) <= |d| && Sum(EntrySizes(d, t)) % 4 == 0
    ensures EntryOffset(d, t, |t|) == HEADER + Sum(EntrySizes(d, t))
  {
    hide EntryStorage, EntryAt;
    ObjectDocIs(d, t, ms);
    forall k | 0 <= k < |t|
      ensures EntrySizes(d, t)[k] % 4 == 0
    {
      StorageAligned(d, t[k]);
    }
    SumAligned(EntrySizes(d, t));
    assert EntrySizes(d, t)[..|t|] == EntrySizes(d, t);
  }

  // ---------------------------------------------------------------------
  // The new block while it is being filled
  // ---------------------------------------------------------------------

  /** Header and table offset are final; `e` and `u` are the parts of data and table filled so far. */
  ghost predicate Filling(b: Bytes, isObject: bool, n: nat, tab: nat, e: Bytes, u: seq<word>) {
    && HEADER <= tab && |b| == tab + 4 * n && |b| % 4 == 0
    && HasHeader(b, |b|, isObject, n, tab)
    && HEADER + |e| <= tab && b[HEADER..HEADER + |e|] == e
    && |u| <= n && Words(b, tab, |u|) == u
  }

  lemma StartFilling(isObject: bool, n: nat, room: nat, junk: Bytes)
    requires room % 4 == 0 && |junk| == room + 4 * n && HEADER + room + 4 * n < 0x8000_0000
    ensures Filling(Header(HEADER + room + 4 * n, isObject, n, HEADER + room) + junk, isObject, n, HEADER + room, [],
        [])
  {
    hide Header, U32, Words;
    HeaderFields(HEADER + room + 4 * n, isObject, n, HEADER + room, junk);
    NoWords(Header(HEADER + room + 4 * n, isObject, n, HEADER + room) + junk, HEADER + room);
  }

  lemma FillTable(b: Bytes, isObject: bool, n: nat, tab: nat, e: Bytes, u: seq<word>, w: word)
    requires Filling(b, isObject, n, tab, e, u) && |u| < n
    ensures var r := SetWord(b, tab + 4 * |u|, w);
            Filling(r, isObject, n, tab, e, u + [w]) && Filling(r, isObject, n, tab, e, u)
  {
    hide U32, Words, SetWord;
    var at := tab + 4 * |u|;
    var r := SetWord(b, at, w);
    BodyWordSet(b, at, w);
    SameHeader(r, b);
    SubSlice(r, b, 0, at, HEADER, HEADER + |e|);
    SubSlice(r, b, 0, at, tab, at);
    WordsOfSlice(r, tab, b, tab, |u|);
    WordsAround(r, tab, |u|, |u|);
    NoWords(r, at + 4);
    assert u + [w] + [] == u + [w];
  }

  lemma NoWords(b: Bytes, at: nat)
    requires at <= |b|
    ensures Words(b, at, 0) == []
  {}

  lemma FillData(b: Bytes, isObject: bool, n: nat, tab: nat, e: Bytes, u: seq<word>, x: Bytes)
    requires Filling(b, isObject, n, tab, e, u) && HEADER + |e| + |x| <= tab
    ensures Filling(Write(b, HEADER + |e|, x), isObject, n, tab, e + x, u)
  {
    hide U32, Words;
    var at := HEADER + |e|;
    var r := Write(b, at, x);
    SubSlice(r, b, 0, at, 0, HEADER);
    SameHeader(r, b);
    SubSlice(r, b, 0, at, HEADER, at);
    assert r[HEADER..at + |x|] == r[HEADER..at] + r[at..at + |x|];
    TailSlice(r, b, at + |x|, tab, 4 * |u|);
    WordsOfSlice(r, tab, b, tab, |u|);
  }

  lemma FillWord(b: Bytes, isObject: bool, n: nat, tab: nat, e: Bytes, u: seq<word>, k: nat, w: word)
    requires Filling(b, isObject, n, tab, e, u) && k + 4 <= |e|
    ensures Filling(SetWord(b, HEADER + k, w), isObject, n, tab, Write(e, k, LE4(w)), u)
  {
    hide U32, Words;
    var at := HEADER + k;
    var r := SetWord(b, at, w);
    BodyWordSet(b, at, w);
    SameHeader(r, b);
    SubSlice(r, b, 0, at, HEADER, at);
    TailSlice(r, b, at + 4, at + 4, |e| - k - 4);
    assert r[at..at + 4] == LE4(w);
    WrittenSlice(b, r, e, k, LE4(w));
    TailSlice(r, b, at + 4, tab, 4 * |u|);
    WordsOfSlice(r, tab, b, tab, |u|);
  }

  lemma Filled(b: Bytes, isObject: bool, n: nat, tab: nat, e: Bytes, u: seq<word>)
    requires Filling(b, isObject, n, tab, e, u) && |u| == n && HEADER + |e| == tab && |e| % 4 == 0
    ensures Laid(b, |b|, isObject, e, u)
  {
    hide U32, Words;
  }

  lemma LE4OfU32(d: Bytes, o: nat)
    requires o + 4 <= |d|
    ensures LE4(U32(d, o)) == d[o..o + 4]
  {
    var a: nat, b: nat, c: nat, e: nat := d[o], d[o + 1], d[o + 2], d[o + 3];
    FourDigits(a, b, c, e);
    assert d[o..o + 4] == [d[o], d[o + 1], d[o + 2], d[o + 3]];
  }

  lemma FourDigits(a: nat, b: nat, c: nat, e: nat)
    requires a < 0x100 && b < 0x100 && c < 0x100 && e < 0x100
    ensures var w := a + 0x100 * b + 0x1_0000 * c + 0x100_0000 * e;
            w % 0x100 == a && w / 0x100 % 0x100 == b && w / 0x1_0000 % 0x100 == c && w / 0x100_0000 == e
  {
    var w := a + 0x100 * (b + 0x100 * (c + 0x100 * e));
    assert w / 0x100 == b + 0x100 * (c + 0x100 * e);
    assert w / 0x1_0000 == c + 0x100 * e;
  }

  /** Key bytes and payload copied, then the value word updated when there is a payload. */
  lemma EntryAssembled(d: Bytes, en: word, e: Bytes)
    requires EntryAt(d, en).Some?
    requires HEADER <= en && en - HEADER + EntrySize(d, en) <= |d| && ValueAt(d, U32(d, en - HEADER)).Some?
    ensures var o, n := en - HEADER, EntrySize(d, en);
            var w := U32(d, o);
            var f := e + d[o..o + n] + PayloadOf(d, w);
            && |PayloadOf(d, w)| == UsedStorage(d, w) && n >= 8
            && U32(f, |e|) == w
            && Write(f, |e|, LE4(MovedWord(d, w, HEADER + |e| + n))) == e + EntryCopy(d, en, HEADER + |e|)
            && (UsedStorage(d, w) == 0 ==> f == e + EntryCopy(d, en, HEADER + |e|))
  {
    hide EntryAt, ValueAt, UsedStorage, LE4, EntryStorage, PayloadOf, EntrySize;
    EntryParts(d, en);
    var o, n := en - HEADER, EntrySize(d, en);
    var w := U32(d, o);
    LE4OfU32(d, o);
    var c := PayloadOf(d, w);
    var m := LE4(MovedWord(d, w, HEADER + |e| + n));
    var f := e + d[o..o + n] + c;
    FourthPart(d, o, n, e, c, m);
    U32Moved(f, |e|, d, o);
  }

  lemma FourthPart(d: Bytes, o: nat, n: nat, e: Bytes, c: Bytes, m: Bytes)
    requires 4 <= n && o + n <= |d| && |m| == 4
    ensures var f := e + d[o..o + n] + c;
            f[|e|..|e| + 4] == d[o..o + 4] && Write(f, |e|, m) == e + (m + d[o + 4..o + n] + c)
    ensures e + (d[o..o + 4] + d[o + 4..o + n] + c) == e + d[o..o + n] + c
  {
    var f := e + d[o..o + n] + c;
    assert d[o..o + n] == d[o..o + 4] + d[o + 4..o + n];
    assert f == e + (d[o..o + 4] + d[o + 4..o + n] + c);
    assert f[|e| + 4..] == d[o + 4..o + n] + c;
  }
}
