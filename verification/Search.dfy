/**
  Key comparison and the two binary searches over key-sorted tables.
 */
module Search {
  import opened Bytes
  import opened Numbers
  import opened Json
  import opened Arena
  import opened Layout

  /** `String::operator<`; `i` is the distance both pointers have moved. */
  method StringLess(a: Key, b: Key) returns (r: bool)
    ensures r == Less(a, b)
  {
    var alen, blen := |a|, |b|;
    var l: int := if alen < blen then alen else blen;
    var i := 0;
    while true
      invariant 0 <= i <= alen && i <= blen && l == (if alen < blen then alen else blen) - i
      invariant a[..i] == b[..i]
      decreases l
    {
      l := l - 1;
      if l == -1 || a[i] != b[i] {
        break;
      }
      i := i + 1;
    }
    LessAtDifference(a, b, i);
    if l == -1 {
      return alen < blen;
    }
    return a[i] < b[i];
  }

  // ---------------------------------------------------------------------
  // Reading a well-formed object in place
  // ---------------------------------------------------------------------

  /** `table()[i]` */
  function TableWord(b: Bytes, i: nat): word
    requires |b| >= HEADER && TableOffset(b) + 4 * i + 4 <= |b|
  {
    U32(b, TableOffset(b) + 4 * i)
  }

  lemma ObjectParts(b: Bytes, ms: seq<Member>)
    requires Contents(b, true) == Some(Obj(ms))
    ensures Split(b).Some?
    ensures ObjectDoc(Split(b).value.data, Split(b).value.table) == Some(Obj(ms))
    ensures Spells(Split(b).value.data, Split(b).value.table, ms) && Ascending(Keys(ms))
    ensures Length(b) == |ms| && TableOffset(b) + 4 * |ms| <= |b|
  {
    ObjectDocIs(Split(b).value.data, Split(b).value.table, ms);
  }

  lemma ArrayParts(b: Bytes, vs: seq<Json>)
    requires Contents(b, false) == Some(Arr(vs))
    ensures Split(b).Some?
    ensures ArrayDoc(Split(b).value.data, Split(b).value.table) == Some(Arr(vs))
    ensures Length(b) == |vs| && TableOffset(b) + 4 * |vs| <= |b|
  {}

  /** Bytes of the data region seen from the start of the block. */
  lemma DataWord(b: Bytes, i: nat)
    requires Split(b).Some? && Length(b) > 0 && i + 4 <= |Split(b).value.data|
    ensures HEADER + i + 4 <= |b| && U32(b, HEADER + i) == U32(Split(b).value.data, i)
  {
    var d := Split(b).value.data;
    SliceOfSlice(b, HEADER, TableOffset(b), i, i + 4);
    U32Moved(b, HEADER + i, d, i);
  }

  lemma DataSlice(b: Bytes, i: nat, j: nat)
    requires Split(b).Some? && Length(b) > 0 && i <= j <= |Split(b).value.data|
    ensures HEADER + j <= |b| && b[HEADER + i..HEADER + j] == Split(b).value.data[i..j]
  {
    SliceOfSlice(b, HEADER, TableOffset(b), i, j);
  }

  lemma StringInBlock(b: Bytes, off: nat)
    requires Split(b).Some? && Length(b) > 0 && StringBytes(Split(b).value.data, off).Some?
    ensures off + 4 <= |b| && off + 4 + U32(b, off) <= |b|
    ensures b[off + 4..off + 4 + U32(b, off)] == StringBytes(Split(b).value.data, off).value
  {
    var d, o := Split(b).value.data, off - HEADER;
    DataWord(b, o);
    DataSlice(b, o + 4, o + 4 + U32(d, o));
  }

  /** `entryAt(i)->shallowKey()` is in bounds. */
  predicate HasKey(b: Bytes, i: nat) {
    && |b| >= HEADER && TableOffset(b) + 4 * i + 4 <= |b|
    && var e := TableWord(b, i);
       e + 8 <= |b| && e + 8 + U32(b, e + 4) <= |b|
  }

  function KeyAt(b: Bytes, i: nat): Key
    requires HasKey(b, i)
  {
    var e := TableWord(b, i);
    b[e + 8..e + 8 + U32(b, e + 4)]
  }

  predicate HasKeys(b: Bytes, ks: seq<Key>) {
    forall i :: 0 <= i < |ks| ==> HasKey(b, i) && KeyAt(b, i) == ks[i]
  }

  lemma ObjectHasKeys(b: Bytes, ms: seq<Member>)
    requires Contents(b, true) == Some(Obj(ms))
    ensures HasKeys(b, Keys(ms)) && Length(b) == |ms| && Ascending(Keys(ms))
  {
    ObjectParts(b, ms);
    var d, t := Split(b).value.data, Split(b).value.table;
    forall i | 0 <= i < |ms|
      ensures HasKey(b, i) && KeyAt(b, i) == Keys(ms)[i]
    {
      assert EntryAt(d, t[i]) == Some(ms[i]);
      assert TableWord(b, i) == t[i];
      StringInBlock(b, t[i] + 4);
    }
  }

  /** `w` is a value word of the container in block `b`, and stands for `v`. */
  predicate Stands(b: Bytes, w: word, v: Json) {
    Split(b).Some? && Length(b) > 0 && ValueAt(Split(b).value.data, w) == Some(v)
  }

  lemma DoubleInBlock(b: Bytes, w: word, n: Number)
    requires Stands(b, w, Num(n)) && TypeField(w) == T_DOUBLE && IntField(w) != 1
    ensures ValueField(w) + 8 <= |b| && n == Canonical(b[ValueField(w)..ValueField(w) + 8])
  {
    var off := ValueField(w);
    DataSlice(b, off - HEADER, off - HEADER + 8);
  }

  lemma NestedInBlock(b: Bytes, w: word, v: Json)
    requires Stands(b, w, v) && (v.Arr? || v.Obj?)
    ensures ValueField(w) + 4 <= |b| && ValueField(w) + U32(b, ValueField(w)) <= |b|
    ensures Contents(b[ValueField(w)..ValueField(w) + U32(b, ValueField(w))], v.Obj?) == Some(v)
  {
    hide Contents;
    var d, off := Split(b).value.data, ValueField(w);
    ContainerAtOf(d, w, v);
    DataWord(b, off - HEADER);
    DataSlice(b, off - HEADER, off - HEADER + U32(d, off - HEADER));
  }

  lemma ContainerAtOf(d: Bytes, w: word, v: Json)
    requires ValueAt(d, w) == Some(v) && (v.Arr? || v.Obj?)
    ensures HasBlock(d, ValueField(w)) && Contents(Block(d, ValueField(w)), v.Obj?) == Some(v)
  {
    ContainerKinds(d, ValueField(w), v.Obj?);
  }

  lemma ContainerKinds(d: Bytes, off: nat, isObject: bool)
    requires ContainerAt(d, off, isObject).Some?
    ensures HasBlock(d, off) && Contents(Block(d, off), isObject) == ContainerAt(d, off, isObject)
    ensures ContainerAt(d, off, isObject).value.Obj? <==> isObject
  {}

  lemma KindOfValue(b: Bytes, w: word, v: Json)
    requires Stands(b, w, v)
    ensures match TypeField(w)
            case 0 => v == Null
            case 1 => v == Bool(ValueField(w) != 0)
            case 2 => v.Num? && (IntField(w) == 1 ==> v.n == Int(SignedField(w)))
            case 3 => v.Str? && StringBytes(Split(b).value.data, ValueField(w)) == Some(v.s)
            case 4 => v.Arr?
            case 5 => v.Obj?
            case _ => false
  {
    var d, off := Split(b).value.data, ValueField(w);
    if TypeField(w) == T_ARRAY || TypeField(w) == T_OBJECT {
      ContainerKinds(d, off, TypeField(w) == T_OBJECT);
    }
  }

  lemma TableWordIs(b: Bytes, i: nat)
    requires Split(b).Some? && i < Length(b)
    ensures TableOffset(b) + 4 * i + 4 <= |b| && |Split(b).value.table| == Length(b)
    ensures TableWord(b, i) == Split(b).value.table[i]
  {}

  lemma ItemWord(b: Bytes, vs: seq<Json>, i: nat)
    requires Contents(b, false) == Some(Arr(vs)) && i < |vs|
    ensures Split(b).Some? && Length(b) == |vs| && TableOffset(b) + 4 * i + 4 <= |b|
    ensures Stands(b, TableWord(b, i), vs[i])
  {
    hide ValueAt, ArrayDoc, Contents, Split, TableWord, Length, TableOffset;
    ArrayParts(b, vs);
    TableWordIs(b, i);
    ArrayItem(Split(b).value.data, Split(b).value.table, i);
  }

  lemma MemberWord(b: Bytes, ms: seq<Member>, i: nat)
    requires Contents(b, true) == Some(Obj(ms)) && i < |ms|
    ensures HasKey(b, i) && KeyAt(b, i) == ms[i].0 && Length(b) == |ms|
    ensures Stands(b, U32(b, TableWord(b, i)), ms[i].1)
  {
    hide ValueAt, ObjectDoc, Contents, U32, EntryAt;
    ObjectHasKeys(b, ms);
    assert Keys(ms)[i] == ms[i].0;
    ObjectParts(b, ms);
    var d, t := Split(b).value.data, Split(b).value.table;
    EntryValue(d, t[i], ms[i]);
    DataWord(b, t[i] - HEADER);
  }

  lemma EntryValue(d: Bytes, e: word, m: Member)
    requires EntryAt(d, e) == Some(m)
    ensures InData(d, e, 8) && ValueAt(d, U32(d, e - HEADER)) == Some(m.1)
  {}

  /** `Object::indexOf` */
  method IndexOf(b: Bytes, ghost ms: seq<Member>, key: Key) returns (pos: nat, exists_: bool)
    requires Contents(b, true) == Some(Obj(ms))
    ensures pos == Rank(Keys(ms), key)
    ensures exists_ == Present(Keys(ms), key)
  {
    ObjectHasKeys(b, ms);
    pos := LowerBound(b, Length(b), Keys(ms), key);
    exists_ := pos < Length(b) && KeyAt(b, pos) == key;
  }

  method LowerBound(b: Bytes, length: nat, ghost ks: seq<Key>, key: Key) returns (min: nat)
    requires HasKeys(b, ks) && length == |ks| && Ascending(ks)
    ensures min == Rank(ks, key)
  {
    var n: nat := length;
    min := 0;
    while n > 0
      invariant min + n <= |ks|
      invariant forall i :: 0 <= i < min ==> Less(ks[i], key)
      invariant min + n < |ks| ==> !Less(ks[min + n], key)
      decreases n
    {
      var half := n / 2;
      var middle := min + half;
      var less := StringLess(KeyAt(b, middle), key);
      if !less {
        n := half;
      } else {
        BelowMiddle(ks, middle, key);
        min := middle + 1;
        n := n - (half + 1);
      }
    }
    RankUnique(ks, key, min);
  }

  lemma BelowMiddle(ks: seq<Key>, middle: nat, key: Key)
    requires Ascending(ks) && middle < |ks| && Less(ks[middle], key)
    ensures forall i :: 0 <= i <= middle ==> Less(ks[i], key)
  {
    forall i | 0 <= i <= middle
      ensures Less(ks[i], key)
    {
      if i < middle {
        LessTransitive(ks[i], ks[middle], key);
      }
    }
  }

  // ---------------------------------------------------------------------
  // The parser's table of member offsets
  // ---------------------------------------------------------------------

  /** The key of the entry at `off`, read from the data the parser has written so far. */
  predicate HasEntryKey(d: Bytes, off: word) {
    InData(d, off, 8) && off - HEADER + 8 + U32(d, off - HEADER + 4) <= |d|
  }

  function EntryKey(d: Bytes, off: word): Key
    requires HasEntryKey(d, off)
  {
    d[off - HEADER + 8..off - HEADER + 8 + U32(d, off - HEADER + 4)]
  }

  lemma EntryKeyIs(d: Bytes, off: word)
    requires EntryAt(d, off).Some?
    ensures HasEntryKey(d, off) && EntryKey(d, off) == EntryAt(d, off).value.0
  {
    assert StringBytes(d, off + 4).Some?;
  }

  /** `Parser::ParsedObject` */
  class ParsedObject {
    var offsets: seq<word>

    constructor ()
      ensures offsets == []
    {
      offsets := [];
    }

    method LowerBound(d: Bytes, newKey: Key, ghost ks: seq<Key>) returns (min: nat)
      requires |offsets| == |ks| && Ascending(ks)
      requires forall i :: 0 <= i < |ks| ==> HasEntryKey(d, offsets[i]) && EntryKey(d, offsets[i]) == ks[i]
      ensures min == Rank(ks, newKey)
    {
      var n: nat := |offsets|;
      min := 0;
      while n > 0
        invariant min + n <= |ks|
        invariant forall i :: 0 <= i < min ==> Less(ks[i], newKey)
        invariant min + n < |ks| ==> !Less(ks[min + n], newKey)
        decreases n
      {
        var half := n / 2;
        var middle := min + half;
        var less := StringLess(EntryKey(d, offsets[middle]), newKey);
        if !less {
          n := half;
        } else {
          BelowMiddle(ks, middle, newKey);
          min := middle + 1;
          n := n - (half + 1);
        }
      }
      RankUnique(ks, newKey, min);
    }

    /** Keeps the table strictly sorted; a later member with the same key takes the earlier one's place. */
    method Insert(d: Bytes, offset: word, ghost ms: seq<Member>)
      requires Spells(d, offsets, ms) && Ascending(Keys(ms)) && EntryAt(d, offset).Some?
      modifies this
      ensures var m := EntryAt(d, offset).value;
              Spells(d, offsets, Put(ms, m.0, m.1)) && Ascending(Keys(Put(ms, m.0, m.1)))
      ensures Sum(EntrySizes(d, offsets)) <= Sum(EntrySizes(d, old(offsets))) + EntryStorage(d, offset)
    {
      ghost var ks, m := Keys(ms), EntryAt(d, offset).value;
      EntryKeyIs(d, offset);
      forall i | 0 <= i < |ks|
        ensures HasEntryKey(d, offsets[i]) && EntryKey(d, offsets[i]) == ks[i]
      {
        EntryKeyIs(d, offsets[i]);
      }
      var min := LowerBound(d, EntryKey(d, offset), ks);
      PutKeepsOrder(ms, m.0, m.1);
      if min < |offsets| && EntryKey(d, offsets[min]) == EntryKey(d, offset) {
        EntryReplaced(d, offsets, ms, min, offset, m);
        offsets := offsets[min := offset];
      } else {
        EntriesInserted(d, offsets, ms, min, offset, m);
        offsets := Inserted(offsets, min, offset);
      }
    }
  }
}
