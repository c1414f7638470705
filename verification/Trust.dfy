/**
  What the checks on binary data leave open. Together with the conditions listed here they
  accept exactly the well-formed containers.
 */
module Trust {
  import opened Bytes
  import opened Numbers
  import opened Json
  import opened Arena
  import opened Blocks
  import opened Layout
  import opened Search
  import opened Validity

  // ---------------------------------------------------------------------
  // The conditions that are not checked
  // ---------------------------------------------------------------------

  /** Offsets count from behind the header, in whole words. */
  predicate Placed(off: nat) {
    HEADER <= off && off % 4 == 0
  }

  predicate IsReal(w: word) {
    TypeField(w) == T_DOUBLE && IntField(w) != 1
  }

  /** The type is one there is, and payloads are where payloads can be, a string's length being positive. */
  predicate TidyValue(d: Bytes, w: word)
    decreases |d|, 2
  {
    var off := ValueField(w);
    && TypeField(w) <= T_OBJECT
    && (IsReal(w) || TypeField(w) == T_STRING || IsNested(w) ==> Placed(off))
    && (TypeField(w) == T_STRING && off - HEADER + 4 <= |d| ==> U32(d, off - HEADER) < 0x8000_0000)
    && (IsNested(w) ==> TidyNested(d, off, TypeField(w) == T_OBJECT))
  }

  /** A nested block has room for a header and keeps what follows it aligned. */
  predicate TidyNested(d: Bytes, off: nat, isObject: bool)
    requires Placed(off)
    decreases |d|, 1
  {
    var o := off - HEADER;
    o + 4 <= |d| ==>
      var n := U32(d, o);
      HEADER <= n < 0x8000_0000 && (o + n <= |d| ==> Tidy(d[o..o + n], isObject))
  }

  predicate TidyEntry(d: Bytes, e: word)
    decreases |d|, 3
  {
    Placed(e) && (e - HEADER + 4 <= |d| ==> TidyValue(d, U32(d, e - HEADER)))
  }

  predicate DistinctKeys(d: Bytes, e: word, f: word) {
    HasEntryKey(d, e) && HasEntryKey(d, f) ==> EntryKey(d, e) != EntryKey(d, f)
  }

  /** No storage is counted twice over. */
  predicate TidyItems(d: Bytes, t: seq<word>)
    decreases |d|, 4
  {
    (forall i :: 0 <= i < |t| ==> TidyValue(d, t[i])) && Sum(ValueSizes(d, t)) <= |d|
  }

  /** Nor is a key repeated. */
  predicate TidyEntries(d: Bytes, t: seq<word>)
    decreases |d|, 4
  {
    && (forall i :: 0 <= i < |t| ==> TidyEntry(d, t[i])) && Sum(EntrySizes(d, t)) <= |d|
    && (forall i :: 0 < i < |t| ==> DistinctKeys(d, t[i - 1], t[i]))
  }

  /** A block is as long as it says, aligned, and its table comes after the header. */
  predicate Tidy(b: Bytes, isObject: bool)
    decreases |b|, 0
  {
    && |b| >= HEADER && Size(b) == |b| && |b| % 4 == 0 && TableOffset(b) % 4 == 0
    && (Length(b) > 0 ==> HEADER <= TableOffset(b))
    && (Length(b) > 0 && TableOffset(b) + 4 * Length(b) <= |b| ==>
          var d, t := b[HEADER..TableOffset(b)], Words(b, TableOffset(b), Length(b));
          if isObject then TidyEntries(d, t) else TidyItems(d, t))
  }

  // ---------------------------------------------------------------------
  // They are necessary
  // ---------------------------------------------------------------------

  lemma {:induction false} ValueTidy(d: Bytes, w: word)
    requires ValueAt(d, w).Some? && |d| < 0x8000_0000
    ensures TidyValue(d, w)
    decreases |d|, 1
  {
    hide Contents, Tidy, Canonical, Align4;
    var off := ValueField(w);
    if IsNested(w) {
      NestedValue(d, w);
      ContainerKinds(d, off, TypeField(w) == T_OBJECT);
      BlockSizeAligned(Block(d, off), TypeField(w) == T_OBJECT);
      ContentsTidy(Block(d, off), TypeField(w) == T_OBJECT);
    } else if TypeField(w) == T_STRING {
      StringShort(d, off);
    }
  }

  lemma StringShort(d: Bytes, off: nat)
    requires StringBytes(d, off).Some? && |d| < 0x8000_0000
    ensures Placed(off) && U32(d, off - HEADER) < 0x8000_0000
  {
    hide U32;
  }

  lemma {:induction false} EntryTidy(d: Bytes, e: word)
    requires EntryAt(d, e).Some? && |d| < 0x8000_0000
    ensures TidyEntry(d, e)
    decreases |d|, 2
  {
    hide ValueAt, TidyValue, StringBytes, U32;
    ValueTidy(d, U32(d, e - HEADER));
  }

  lemma {:induction false} ContentsTidy(b: Bytes, isObject: bool)
    requires Contents(b, isObject).Some? && |b| < 0x8000_0000
    ensures Tidy(b, isObject)
    decreases |b|, 0
  {
    hide U32, ValueAt, EntryAt, TidyValue, TidyEntry, DistinctKeys;
    var p := Split(b).value;
    if p.table != [] {
      if isObject {
        var ms := Contents(b, isObject).value.members;
        ObjectDocIs(p.data, p.table, ms);
        forall i | 0 <= i < |p.table|
          ensures TidyEntry(p.data, p.table[i])
        {
          EntryTidy(p.data, p.table[i]);
        }
        KeysDistinct(p.data, p.table, ms);
      } else {
        forall i | 0 <= i < |p.table|
          ensures TidyValue(p.data, p.table[i])
        {
          ArrayItem(p.data, p.table, i);
          ValueTidy(p.data, p.table[i]);
        }
      }
    }
  }

  lemma KeysDistinct(d: Bytes, t: seq<word>, ms: seq<Member>)
    requires Spells(d, t, ms) && Ascending(Keys(ms))
    ensures forall i :: 0 < i < |t| ==> DistinctKeys(d, t[i - 1], t[i])
  {
    hide EntryAt, Less, HasEntryKey;
    forall i | 0 < i < |t|
      ensures DistinctKeys(d, t[i - 1], t[i])
    {
      EntryKeyIs(d, t[i - 1]);
      EntryKeyIs(d, t[i]);
      EarlierIsLess(ms, i - 1, i);
    }
  }

  // ---------------------------------------------------------------------
  // With the checks, they are sufficient
  // ---------------------------------------------------------------------

  lemma StringSize(n: nat)
    requires n < 0x8000_0000 && AlignedSize(Int32(4 + n)) >= 0
    ensures AlignedSize(Int32(4 + n)) == 4 + Align4(n)
  {
    Align4Plus4(n);
  }

  lemma StringTrusted(m: Bytes, base: nat, d: Bytes, w: word)
    requires Holds(m, base + HEADER, d) && TypeField(w) == T_STRING
    requires ValidValue(m, base, HEADER + |d|, w) && TidyValue(d, w)
    ensures ValueAt(d, w).Some?
  {
    hide TypeField, ValueField, U32, AlignedSize, Int32, Align4, ValidContainer, ContainerAt;
    var off := ValueField(w);
    HeldWord(m, base + HEADER, d, off - HEADER);
    StringSize(U32(d, off - HEADER));
    assert StringBytes(d, off).Some?;
  }

  lemma {:induction false} NestedTrusted(m: Bytes, base: nat, d: Bytes, w: word)
    requires Holds(m, base + HEADER, d) && IsNested(w)
    requires ValidValue(m, base, HEADER + |d|, w) && TidyValue(d, w)
    ensures ValueAt(d, w).Some?
    decreases |d|, 1
  {
    hide TypeField, ValueField, U32, ValidContainer, ContainerAt, Tidy, Contents, ValueAt;
    var off, isObject := ValueField(w), TypeField(w) == T_OBJECT;
    var o := off - HEADER;
    HeldWord(m, base + HEADER, d, o);
    var n := U32(d, o);
    assert PayloadSize(m, base, w) == AlignedSize(Int32(n));
    HeldSlice(m, base + HEADER, d, o, o + n);
    ContainerTrusted(m, base + off, d[o..o + n], isObject);
    BlockContents(d, off, isObject);
    NestedValue(d, w);
  }

  lemma RealTrusted(m: Bytes, base: nat, d: Bytes, w: word)
    requires Holds(m, base + HEADER, d) && TypeField(w) != T_STRING && !IsNested(w)
    requires ValidValue(m, base, HEADER + |d|, w) && TidyValue(d, w)
    ensures ValueAt(d, w).Some?
  {
    hide U32, ValidContainer, ContainerAt, Tidy, Canonical, TidyNested;
    if IsReal(w) {
      assert InData(d, ValueField(w), 8);
    }
  }

  lemma {:induction false} ValueTrusted(m: Bytes, base: nat, d: Bytes, w: word)
    requires Holds(m, base + HEADER, d) && ValidValue(m, base, HEADER + |d|, w) && TidyValue(d, w)
    ensures ValueAt(d, w).Some?
    decreases |d|, 2
  {
    hide ValidValue, TidyValue, ValueAt, TypeField;
    if TypeField(w) == T_STRING {
      StringTrusted(m, base, d, w);
    } else if IsNested(w) {
      NestedTrusted(m, base, d, w);
    } else {
      RealTrusted(m, base, d, w);
    }
  }

  lemma EntrySizeIs(e: nat, n: nat, tab: nat)
    requires e < tab < 0x8000_0000 && e + 8 + n < 0x8000_0000
    requires (e + AlignedSize(Int32(8 + n))) % TWO_TO_THE_32 <= tab
    ensures e + 8 + Align4(n) <= tab
  {
    Align4Plus4(n);
    Align4Plus4(n + 4);
  }

  lemma {:induction false} EntryTrusted(m: Bytes, base: nat, d: Bytes, e: word)
    requires Holds(m, base + HEADER, d) && HasEntry(m, base, HEADER + |d|, e) && TidyEntry(d, e)
    requires ValidValue(m, base, HEADER + |d|, U32(m, base + e))
    ensures EntryAt(d, e).Some? && EntryAt(d, e).value.0 == EntryKeyAt(m, base + e)
    decreases |d|, 3
  {
    hide ValidValue, TidyValue, ValueAt, U32, AlignedSize, Int32, Align4;
    var o, n := e - HEADER, U32(m, base + e + 4);
    EntrySizeIs(e, n, HEADER + |d|);
    assert Align4(n) >= n;
    HeldWord(m, base + HEADER, d, o);
    HeldWord(m, base + HEADER, d, o + 4);
    HeldSlice(m, base + HEADER, d, o + 8, o + 8 + n);
    ValueTrusted(m, base, d, U32(d, o));
    assert StringBytes(d, e + 4) == Some(d[o + 8..o + 8 + n]);
  }

  lemma AdjacentAscending(ks: seq<Key>)
    requires forall i :: 0 < i < |ks| ==> Less(ks[i - 1], ks[i])
    ensures Ascending(ks)
  {
    forall i, j | 0 <= i < j < |ks|
      ensures Less(ks[i], ks[j])
    {
      StepsUp(ks, i, j);
    }
  }

  lemma {:induction false} StepsUp(ks: seq<Key>, i: nat, j: nat)
    requires forall i :: 0 < i < |ks| ==> Less(ks[i - 1], ks[i])
    requires i < j < |ks|
    ensures Less(ks[i], ks[j])
  {
    hide Less;
    assert Less(ks[j - 1], ks[j]);
    if i < j - 1 {
      StepsUp(ks, i, j - 1);
      LessTransitive(ks[i], ks[j - 1], ks[j]);
    }
  }

  /** Keys that do not descend and differ ascend. */
  lemma KeysAscend(d: Bytes, t: seq<word>, ms: seq<Member>)
    requires Spells(d, t, ms)
    requires forall i :: 0 < i < |t| ==> DistinctKeys(d, t[i - 1], t[i]) && !Less(ms[i].0, ms[i - 1].0)
    ensures Ascending(Keys(ms))
  {
    hide EntryAt, Less, HasEntryKey;
    forall i | 0 < i < |ms|
      ensures Less(Keys(ms)[i - 1], Keys(ms)[i])
    {
      assert DistinctKeys(d, t[i - 1], t[i]);
      EntryKeyIs(d, t[i - 1]);
      EntryKeyIs(d, t[i]);
      LessTotal(ms[i - 1].0, ms[i].0);
    }
    AdjacentAscending(Keys(ms));
  }

  lemma {:induction false} ItemsTrusted(m: Bytes, base: nat, d: Bytes, t: seq<word>)
    requires Holds(m, base + HEADER, d) && TidyItems(d, t)
    requires forall i :: 0 <= i < |t| ==> ValidValue(m, base, HEADER + |d|, t[i])
    ensures ArrayDoc(d, t).Some?
    decreases |d|, 4
  {
    hide ValidValue, TidyValue, ValueAt;
    forall i | 0 <= i < |t|
      ensures ValueAt(d, t[i]).Some?
    {
      ValueTrusted(m, base, d, t[i]);
    }
  }

  /** What is checked of an entry and the one before it. */
  predicate EntryChecked(m: Bytes, base: nat, tab: nat, t: seq<word>, i: nat)
    requires i < |t|
  {
    && HasEntry(m, base, tab, t[i]) && ValidValue(m, base, tab, U32(m, base + t[i]))
    && (i > 0 ==> HasEntry(m, base, tab, t[i - 1])
                  && !Less(EntryKeyAt(m, base + t[i]), EntryKeyAt(m, base + t[i - 1])))
  }

  lemma {:induction false} EntriesTrusted(m: Bytes, base: nat, tab: nat, d: Bytes, t: seq<word>)
    requires Holds(m, base + HEADER, d) && TidyEntries(d, t) && tab == HEADER + |d|
    requires forall i :: 0 <= i < |t| ==> EntryChecked(m, base, tab, t, i)
    ensures ObjectDoc(d, t).Some?
    decreases |d|, 4
  {
    hide ValidValue, TidyEntry, EntryAt, Less, EntryBytes, EntryKeyAt, DistinctKeys, U32;
    forall i | 0 <= i < |t|
      ensures HasEntry(m, base, tab, t[i])
      ensures EntryAt(d, t[i]).Some? && EntryAt(d, t[i]).value.0 == EntryKeyAt(m, base + t[i])
    {
      assert EntryChecked(m, base, tab, t, i);
      EntryTrusted(m, base, d, t[i]);
    }
    var ms := seq(|t|, i requires 0 <= i < |t| => EntryAt(d, t[i]).value);
    forall i | 0 < i < |t|
      ensures DistinctKeys(d, t[i - 1], t[i]) && !Less(ms[i].0, ms[i - 1].0)
    {
      assert EntryChecked(m, base, tab, t, i);
    }
    KeysAscend(d, t, ms);
  }

  lemma TableChecked(m: Bytes, base: nat, b: Bytes, isObject: bool)
    requires Holds(m, base, b) && ValidContainer(m, base, isObject) && Tidy(b, isObject)
    ensures Split(b).Some?
    ensures var p := Split(b).value;
            p.table != [] ==>
              && Holds(m, base + HEADER, p.data) && TableOffset(b) == HEADER + |p.data|
              && (isObject ==> TidyEntries(p.data, p.table)) && (!isObject ==> TidyItems(p.data, p.table))
              && (isObject ==>
                    forall i :: 0 <= i < |p.table| ==> EntryChecked(m, base, TableOffset(b), p.table, i))
              && (!isObject ==>
                    forall i :: 0 <= i < |p.table| ==> ValidValue(m, base, HEADER + |p.data|, p.table[i]))
  {
    hide ValidValue, TidyEntries, TidyItems, Less, HasEntry, EntryKeyAt, U32;
    HeldWord(m, base, b, 0);
    HeldWord(m, base, b, 4);
    HeldWord(m, base, b, 8);
    var p := Split(b).value;
    HeldTable(m, base, b, p);
    if p.table != [] && isObject {
      forall i | 0 <= i < |p.table|
        ensures EntryChecked(m, base, TableOffset(b), p.table, i)
      {
        assert ValidEntry(m, base, i);
        if i > 0 {
          assert ValidEntry(m, base, i - 1);
        }
      }
    }
  }

  lemma {:induction false} ContainerTrusted(m: Bytes, base: nat, b: Bytes, isObject: bool)
    requires Holds(m, base, b) && ValidContainer(m, base, isObject) && Tidy(b, isObject)
    ensures Contents(b, isObject).Some?
    decreases |b|, 0
  {
    hide ValidContainer, Tidy, TidyEntries, TidyItems, ValidValue, EntryChecked, ArrayDoc, ObjectDoc;
    TableChecked(m, base, b, isObject);
    var p := Split(b).value;
    if p.table == [] {
      EmptyDoc(b, p.isObject, isObject);
    } else if isObject {
      EntriesTrusted(m, base, TableOffset(b), p.data, p.table);
    } else {
      ItemsTrusted(m, base, p.data, p.table);
    }
  }

  /** A container is well-formed exactly when the checks accept it and it is tidy. */
  lemma WellFormedIff(m: Bytes, base: nat, b: Bytes, isObject: bool)
    requires Holds(m, base, b)
    ensures Contents(b, isObject).Some? <==> ValidContainer(m, base, isObject) && Tidy(b, isObject)
  {
    hide ValidContainer, Tidy, Contents;
    if Contents(b, isObject).Some? {
      ContainerAccepted(m, base, b, isObject);
      ContentsTidy(b, isObject);
    }
    if ValidContainer(m, base, isObject) && Tidy(b, isObject) {
      ContainerTrusted(m, base, b, isObject);
    }
  }

  /** The same for what `Data::valid` looks at. */
  lemma RootWellFormedIff(b: Bytes)
    requires HEADER <= |b| < 0x8000_0000
    ensures Doc(b).Some? <==> ValidContainer(b, 0, IsObject(b)) && Tidy(b, IsObject(b))
  {
    hide ValidContainer, Tidy, Contents;
    assert b[0..|b|] == b;
    WellFormedIff(b, 0, b, IsObject(b));
  }

  // ---------------------------------------------------------------------
  // The worst that is accepted
  // ---------------------------------------------------------------------

  /** Item `i` of the array at `base`. */
  predicate HasItem(m: Bytes, base: nat, i: nat) {
    HasTable(m, base) && i < U32(m, base + 4) / 2
  }

  function ItemAt(m: Bytes, base: nat, i: nat): word
    requires HasItem(m, base, i)
  {
    U32(m, base + U32(m, base + 8) + 4 * i)
  }

  /** From the array at `base`, readers descend through `n` levels of arrays. */
  ghost predicate NestsTo(m: Bytes, base: nat, n: nat)
    decreases n
  {
    n > 0 ==>
      exists i ::
        && HasItem(m, base, i) && TypeField(ItemAt(m, base, i)) == T_ARRAY
        && NestsTo(m, base + ValueField(ItemAt(m, base, i)), n - 1)
  }

  /** An item of type array with offset 0 passes unseen, and is the array it is in: reading it never ends. */
  lemma {:induction false} ZeroOffsetNests(m: Bytes, base: nat, i: nat, n: nat)
    requires HasItem(m, base, i)
    requires TypeField(ItemAt(m, base, i)) == T_ARRAY && ValueField(ItemAt(m, base, i)) == 0
    ensures ValidValue(m, base, U32(m, base + 8), ItemAt(m, base, i))
    ensures NestsTo(m, base, n)
  {
    hide U32, HasTable;
    if n > 0 {
      ZeroOffsetNests(m, base, i, n - 1);
    }
  }

  /** An array whose one item is of type array with offset 0. */
  const ITSELF: Bytes := Header(16, false, 1, 12) + TableBytes([T_ARRAY])

  lemma ItselfWords()
    ensures |ITSELF| == 16 && !IsObject(ITSELF) && HasItem(ITSELF, 0, 0) && !HasItem(ITSELF, 0, 1)
    ensures U32(ITSELF, 8) == 12 && ItemAt(ITSELF, 0, 0) == T_ARRAY
  {
    hide U32, Words, TableBytes, Header;
    HeaderFields(16, false, 1, 12, TableBytes([T_ARRAY]));
    TableWordReadsBack(ITSELF, 12, [T_ARRAY], 0);
  }

  lemma Untidy(m: Bytes)
    requires HasItem(m, 0, 0) && U32(m, 8) == HEADER && ItemAt(m, 0, 0) == T_ARRAY
    ensures !Tidy(m, false)
  {
    hide U32, Words;
    var d, t := m[HEADER..TableOffset(m)], Words(m, TableOffset(m), Length(m));
    assert t[0] == T_ARRAY;
    assert !TidyValue(d, t[0]);
    assert !TidyItems(d, t);
  }

  /** It passes every check, though it has more levels than any number. */
  lemma ItselfIsAccepted(n: nat)
    ensures ValidContainer(ITSELF, 0, false) && NestsTo(ITSELF, 0, n) && Doc(ITSELF).None?
  {
    hide U32, ITSELF, Contents, Tidy, Doc;
    ItselfWords();
    ZeroOffsetNests(ITSELF, 0, 0, n);
    RootWellFormedIff(ITSELF);
    Untidy(ITSELF);
  }
}
