/**
  The checks binary data goes through before it is trusted (`isValid`), and the fact that
  they accept everything the store writes.

  Containers are read where they lie in memory, by position. A read outside the memory
  counts as a failed check.
 */
module Validity {
  import opened Bytes
  import opened Numbers
  import opened Json
  import opened Arena
  import opened Blocks
  import opened Layout
  import opened Search

  /** An unsigned 32-bit quantity converted to `int`. */
  function Int32(x: nat): (i: int)
    ensures x < 0x8000_0000 ==> i == x
  {
    var y := x % TWO_TO_THE_32;
    if y < 0x8000_0000 then y else y - TWO_TO_THE_32
  }

  /** `alignedSize` on a signed argument. */
  function AlignedSize(n: int): (a: int)
    ensures 0 <= n ==> a == Align4(n)
  {
    (n + 3) / 4 * 4
  }

  // ---------------------------------------------------------------------
  // What the checks accept
  // ---------------------------------------------------------------------

  /** `Value::usedStorage` of a value with an offset. */
  function PayloadSize(m: Bytes, base: nat, w: word): int
    requires base + ValueField(w) + 4 <= |m|
  {
    if TypeField(w) == T_DOUBLE then 8
    else
      var n := U32(m, base + ValueField(w));
      if TypeField(w) == T_STRING then AlignedSize(Int32(4 + n)) else AlignedSize(Int32(n))
  }

  /** The offset the check looks at; 0 for values without payload. */
  function CheckedOffset(w: word): nat {
    if TypeField(w) == T_DOUBLE then (if IntField(w) == 1 then 0 else ValueField(w))
    else if T_STRING <= TypeField(w) <= T_OBJECT then ValueField(w)
    else 0
  }

  predicate ValidValue(m: Bytes, base: nat, tab: nat, w: word)
    decreases |m| - base, 0
  {
    var off := CheckedOffset(w);
    off == 0 ||
    (off + 4 <= tab && base + tab <= |m| &&
     var s := PayloadSize(m, base, w);
     s == 0 ||
     (0 < s && off + s <= tab &&
      (TypeField(w) == T_ARRAY ==> ValidContainer(m, base + off, false)) &&
      (TypeField(w) == T_OBJECT ==> ValidContainer(m, base + off, true))))
  }

  /** `Entry::size` */
  function EntryBytes(m: Bytes, at: nat): int
    requires at + 8 <= |m|
  {
    AlignedSize(Int32(8 + U32(m, at + 4)))
  }

  predicate HasEntry(m: Bytes, base: nat, tab: nat, e: nat) {
    && e + 4 < tab && base + e + 8 <= |m|
    && (e + EntryBytes(m, base + e)) % TWO_TO_THE_32 <= tab
    && base + e + 8 + U32(m, base + e + 4) <= |m|
  }

  function EntryKeyAt(m: Bytes, at: nat): Key
    requires at + 8 <= |m| && at + 8 + U32(m, at + 4) <= |m|
  {
    m[at + 8..at + 8 + U32(m, at + 4)]
  }

  predicate HasTable(m: Bytes, base: nat) {
    && base + HEADER <= |m|
    && U32(m, base + 8) + 4 * (U32(m, base + 4) / 2) <= U32(m, base)
    && base + U32(m, base + 8) + 4 * (U32(m, base + 4) / 2) <= |m|
  }

  /** The entry at `q` has a key that is not below that of the entry at `p`. */
  predicate InOrder(m: Bytes, p: nat, q: nat) {
    && p + 8 <= |m| && p + 8 + U32(m, p + 4) <= |m| && q + 8 <= |m| && q + 8 + U32(m, q + 4) <= |m|
    && !Less(EntryKeyAt(m, q), EntryKeyAt(m, p))
  }

  predicate ValidEntry(m: Bytes, base: nat, i: nat)
    requires HasTable(m, base) && i < U32(m, base + 4) / 2
    decreases |m| - base, 1
  {
    var tab := U32(m, base + 8);
    var e := U32(m, base + tab + 4 * i);
    && HasEntry(m, base, tab, e)
    && (i > 0 ==> InOrder(m, base + U32(m, base + tab + 4 * (i - 1)), base + e))
    && ValidValue(m, base, tab, U32(m, base + e))
  }

  /** The container at `base` passes `Object::isValid` or `Array::isValid`. */
  predicate ValidContainer(m: Bytes, base: nat, isObject: bool)
    decreases |m| - base, 2
  {
    && HasTable(m, base)
    && var tab, n := U32(m, base + 8), U32(m, base + 4) / 2;
       if isObject then forall i :: 0 <= i < n ==> ValidEntry(m, base, i)
       else forall i :: 0 <= i < n ==> ValidValue(m, base, tab, U32(m, base + tab + 4 * i))
  }

  // ---------------------------------------------------------------------
  // The checks
  // ---------------------------------------------------------------------

  method ValueIsValid(m: Bytes, base: nat, tab: nat, w: word) returns (r: bool)
    requires base + tab <= |m|
    ensures r == ValidValue(m, base, tab, w)
    decreases |m| - base, 0
  {
    var off := CheckedOffset(w);
    if off == 0 {
      return true;
    }
    if off + 4 > tab {
      return false;
    }
    var s := PayloadSize(m, base, w);
    if s == 0 {
      return true;
    }
    if s < 0 || off + s > tab {
      return false;
    }
    if TypeField(w) == T_ARRAY {
      r := ArrayIsValid(m, base + off);
      return;
    }
    if TypeField(w) == T_OBJECT {
      r := ObjectIsValid(m, base + off);
      return;
    }
    return true;
  }

  method ArrayIsValid(m: Bytes, base: nat) returns (r: bool)
    ensures r == ValidContainer(m, base, false)
    decreases |m| - base, 2
  {
    if !HasTable(m, base) {
      return false;
    }
    var tab, n := U32(m, base + 8), U32(m, base + 4) / 2;
    for i := 0 to n
      invariant forall k :: 0 <= k < i ==> ValidValue(m, base, tab, U32(m, base + tab + 4 * k))
    {
      r := ValueIsValid(m, base, tab, U32(m, base + tab + 4 * i));
      if !r {
        return false;
      }
    }
    return true;
  }

  lemma NothingBelowEmpty()
    ensures forall k: Key :: !Less(k, [])
  {}

  method ObjectIsValid(m: Bytes, base: nat) returns (r: bool)
    ensures r == ValidContainer(m, base, true)
    decreases |m| - base, 2
  {
    NothingBelowEmpty();
    hide ValidValue, Less, U32, EntryBytes;
    if !HasTable(m, base) {
      return false;
    }
    var tab, n := U32(m, base + 8), U32(m, base + 4) / 2;
    var lastKey := [];
    for i := 0 to n
      invariant forall k :: 0 <= k < i ==> ValidEntry(m, base, k)
      invariant i == 0 ==> lastKey == []
      invariant i > 0 ==>
                  var p := base + U32(m, base + tab + 4 * (i - 1));
                  p + 8 <= |m| && p + 8 + U32(m, p + 4) <= |m| && lastKey == EntryKeyAt(m, p)
    {
      var ok, key := EntryIsValid(m, base, tab, U32(m, base + tab + 4 * i), lastKey);
      assert ok == ValidEntry(m, base, i);
      if !ok {
        return false;
      }
      lastKey := key;
    }
    return true;
  }

  /** One turn of the loop in `Object::isValid`. */
  method EntryIsValid(m: Bytes, base: nat, tab: nat, e: nat, lastKey: Key) returns (r: bool, key: Key)
    requires base + tab <= |m|
    ensures r == (HasEntry(m, base, tab, e)
                  && (lastKey != [] ==> !Less(EntryKeyAt(m, base + e), lastKey))
                  && ValidValue(m, base, tab, U32(m, base + e)))
    ensures r ==> key == EntryKeyAt(m, base + e)
    decreases |m| - base, 1
  {
    key := [];
    if !HasEntry(m, base, tab, e) {
      return false, key;
    }
    key := EntryKeyAt(m, base + e);
    var less := StringLess(key, lastKey);
    if less {
      return false, key;
    }
    r := ValueIsValid(m, base, tab, U32(m, base + e));
  }

  // ---------------------------------------------------------------------
  // Everything well-formed passes
  // ---------------------------------------------------------------------

  /** Memory `m` holds the bytes `b` at `at`. */
  predicate Holds(m: Bytes, at: nat, b: Bytes) {
    at + |b| <= |m| < 0x8000_0000 && m[at..at + |b|] == b
  }

  lemma HeldWord(m: Bytes, at: nat, b: Bytes, i: nat)
    requires Holds(m, at, b) && i + 4 <= |b|
    ensures U32(m, at + i) == U32(b, i)
  {
    SliceOfSlice(m, at, at + |b|, i, i + 4);
    U32Moved(m, at + i, b, i);
  }

  lemma HeldSlice(m: Bytes, at: nat, b: Bytes, i: nat, j: nat)
    requires Holds(m, at, b) && i <= j <= |b|
    ensures Holds(m, at + i, b[i..j])
  {
    SliceOfSlice(m, at, at + |b|, i, j);
  }

  lemma HeldTable(m: Bytes, base: nat, b: Bytes, p: Parts)
    requires Holds(m, base, b) && Split(b) == Some(p)
    ensures HasTable(m, base)
    ensures U32(m, base + 4) / 2 == |p.table| && U32(m, base + 8) == TableOffset(b)
    ensures forall i :: 0 <= i < |p.table| ==> U32(m, base + TableOffset(b) + 4 * i) == p.table[i]
    ensures p.table != [] ==> TableOffset(b) == HEADER + |p.data| && Holds(m, base + HEADER, p.data)
  {
    HeldWord(m, base, b, 0);
    HeldWord(m, base, b, 4);
    HeldWord(m, base, b, 8);
    forall i | 0 <= i < |p.table|
      ensures U32(m, base + TableOffset(b) + 4 * i) == p.table[i]
    {
      HeldWord(m, base, b, TableOffset(b) + 4 * i);
    }
    if p.table != [] {
      HeldSlice(m, base, b, HEADER, TableOffset(b));
    }
  }

  // In what follows the data region `d` of a container lies in memory after its header,
  // so that the table of the container starts at offset `HEADER + |d|`.

  lemma HeldString(m: Bytes, base: nat, d: Bytes, off: nat)
    requires Holds(m, base + HEADER, d) && StringBytes(d, off).Some?
    ensures off + 4 <= HEADER + |d| && U32(m, base + off) == U32(d, off - HEADER)
    ensures off + 4 + Align4(U32(m, base + off)) <= HEADER + |d|
    ensures m[base + off + 4..base + off + 4 + U32(m, base + off)] == StringBytes(d, off).value
  {
    var o := off - HEADER;
    HeldWord(m, base + HEADER, d, o);
    HeldSlice(m, base + HEADER, d, o + 4, o + 4 + U32(d, o));
  }

  lemma HeldBlock(m: Bytes, base: nat, d: Bytes, off: nat, isObject: bool)
    requires Holds(m, base + HEADER, d) && ContainerAt(d, off, isObject).Some?
    ensures off + 4 <= HEADER + |d| && Holds(m, base + off, Block(d, off))
    ensures U32(m, base + off) == |Block(d, off)| && |Block(d, off)| >= HEADER
    ensures off + |Block(d, off)| <= HEADER + |d| && Align4(|Block(d, off)|) == |Block(d, off)|
  {
    var o := off - HEADER;
    HeldWord(m, base + HEADER, d, o);
    HeldSlice(m, base + HEADER, d, o, o + U32(d, o));
    BlockSizeAligned(Block(d, off), isObject);
  }

  lemma StringAccepted(m: Bytes, base: nat, d: Bytes, w: word)
    requires Holds(m, base + HEADER, d) && TypeField(w) == T_STRING && ValueAt(d, w).Some?
    ensures ValidValue(m, base, HEADER + |d|, w)
  {
    HeldString(m, base, d, ValueField(w));
    Align4Plus4(U32(m, base + ValueField(w)));
    assert PayloadSize(m, base, w) == 4 + Align4(U32(m, base + ValueField(w)));
  }

  lemma BlockAccepted(m: Bytes, base: nat, d: Bytes, w: word)
    requires Holds(m, base + HEADER, d) && ContainerAt(d, ValueField(w), TypeField(w) == T_OBJECT).Some?
    requires IsNested(w)
    requires ValidContainer(m, base + ValueField(w), TypeField(w) == T_OBJECT)
    ensures ValidValue(m, base, HEADER + |d|, w)
  {
    hide Contents, ValidContainer, U32;
    var off := ValueField(w);
    HeldBlock(m, base, d, off, TypeField(w) == T_OBJECT);
    var n := |Block(d, off)|;
    assert PayloadSize(m, base, w) == n;
  }

  lemma WordAccepted(m: Bytes, base: nat, d: Bytes, w: word)
    requires Holds(m, base + HEADER, d) && ValueAt(d, w).Some? && TypeField(w) != T_STRING && !IsNested(w)
    ensures ValidValue(m, base, HEADER + |d|, w)
  {
    hide TypeField, IntField, ValueField, U32, ContainerAt, ValidContainer;
  }

  lemma {:induction false} ValueAccepted(m: Bytes, base: nat, d: Bytes, w: word)
    requires Holds(m, base + HEADER, d) && ValueAt(d, w).Some?
    ensures ValidValue(m, base, HEADER + |d|, w)
    decreases |d|, 1
  {
    hide ValueAt, ContainerAt, ValidValue, ValidContainer, U32, TypeField, ValueField, Block;
    var off, isObject := ValueField(w), TypeField(w) == T_OBJECT;
    if TypeField(w) == T_STRING {
      StringAccepted(m, base, d, w);
    } else if IsNested(w) {
      NestedValue(d, w);
      HeldBlock(m, base, d, off, isObject);
      ContainerKinds(d, off, isObject);
      ContainerAccepted(m, base + off, Block(d, off), isObject);
      BlockAccepted(m, base, d, w);
    } else {
      WordAccepted(m, base, d, w);
    }
  }

  lemma HeldKey(m: Bytes, base: nat, d: Bytes, e: word, key: Key)
    requires Holds(m, base + HEADER, d) && InData(d, e, 8) && StringBytes(d, e + 4) == Some(key)
    ensures HasEntry(m, base, HEADER + |d|, e) && EntryKeyAt(m, base + e) == key
  {
    hide U32, AlignedSize, Int32, Align4;
    HeldString(m, base, d, e + 4);
    EntryFits(e, U32(m, base + e + 4), HEADER + |d|);
  }

  lemma EntryFits(e: nat, n: nat, tab: nat)
    requires e + 8 + Align4(n) <= tab < 0x8000_0000
    ensures (e + AlignedSize(Int32(8 + n))) % TWO_TO_THE_32 <= tab
  {
    Align4Plus4(n);
    Align4Plus4(n + 4);
  }

  lemma KeysDoNotDescend(ms: seq<Member>, i: nat)
    requires Ascending(Keys(ms)) && 0 < i < |ms|
    ensures !Less(ms[i].0, ms[i - 1].0)
  {
    EarlierIsLess(ms, i - 1, i);
    if Less(ms[i].0, ms[i - 1].0) {
      LessTransitive(ms[i].0, ms[i - 1].0, ms[i].0);
      LessIrreflexive(ms[i].0);
    }
  }

  lemma EntryOrder(m: Bytes, base: nat, d: Bytes, t: seq<word>, ms: seq<Member>, i: nat)
    requires Holds(m, base + HEADER, d) && Spells(d, t, ms) && Ascending(Keys(ms)) && i < |t|
    ensures HasEntry(m, base, HEADER + |d|, t[i])
    ensures i > 0 ==>
              && HasEntry(m, base, HEADER + |d|, t[i - 1])
              && !Less(EntryKeyAt(m, base + t[i]), EntryKeyAt(m, base + t[i - 1]))
  {
    hide Less, ValueAt, U32, HasEntry, EntryKeyAt, Align4;
    assert EntryAt(d, t[i]) == Some(ms[i]);
    HeldKey(m, base, d, t[i], ms[i].0);
    if i > 0 {
      assert EntryAt(d, t[i - 1]) == Some(ms[i - 1]);
      HeldKey(m, base, d, t[i - 1], ms[i - 1].0);
      KeysDoNotDescend(ms, i);
    }
  }

  lemma {:induction false} EntryAccepted(m: Bytes, base: nat, d: Bytes, t: seq<word>, ms: seq<Member>, i: nat)
    requires Holds(m, base + HEADER, d) && Spells(d, t, ms) && Ascending(Keys(ms)) && i < |t|
    requires HasTable(m, base) && U32(m, base + 4) / 2 == |t| && U32(m, base + 8) == HEADER + |d|
    requires forall k :: 0 <= k < |t| ==> U32(m, base + HEADER + |d| + 4 * k) == t[k]
    ensures ValidEntry(m, base, i)
    decreases |d|, 2
  {
    hide ValidValue, Less, ValueAt, U32, EntryBytes, EntryKeyAt, StringBytes;
    EntryOrder(m, base, d, t, ms, i);
    var e := t[i];
    assert EntryAt(d, e) == Some(ms[i]);
    HeldWord(m, base + HEADER, d, e - HEADER);
    ValueAccepted(m, base, d, U32(d, e - HEADER));
    assert U32(m, base + HEADER + |d| + 4 * i) == e;
    if i > 0 {
      assert U32(m, base + HEADER + |d| + 4 * (i - 1)) == t[i - 1];
    }
  }

  /** An object of two entries for the empty key, both null. */
  const REPEATED_KEY: Bytes := Header(36, true, 2, 28) + seq(16, _ => 0) + TableBytes([12, 20])

  lemma RepeatedKeyWords()
    ensures TwoEmptyKeys(REPEATED_KEY)
  {
    hide U32, Words, TableBytes, Header;
    var m, zeros, t := REPEATED_KEY, seq<byte>(16, _ => 0), TableBytes([12, 20]);
    assert m == Header(36, true, 2, 28) + (zeros + t);
    HeaderFields(36, true, 2, 28, zeros + t);
    TagOfTwo(m);
    ThreeParts(Header(36, true, 2, 28), zeros, t);
    TableReadsBack(m, 28, [12, 20]);
    assert Words(m, 28, 2)[0] == 12 && Words(m, 28, 2)[1] == 20;
    ZeroWord(m, 12);
    ZeroWord(m, 16);
    ZeroWord(m, 20);
    ZeroWord(m, 24);
  }

  lemma TagOfTwo(m: Bytes)
    requires |m| >= HEADER && Length(m) == 2 && IsObject(m)
    ensures U32(m, 4) == 5
  {
    hide U32;
  }

  lemma ZeroWord(m: Bytes, i: nat)
    requires i + 4 <= |m| && m[i] == m[i + 1] == m[i + 2] == m[i + 3] == 0
    ensures U32(m, i) == 0
  {}

  predicate TwoEmptyKeys(m: Bytes) {
    && |m| == 36 && U32(m, 0) == 36 && U32(m, 4) == 5 && U32(m, 8) == 28
    && U32(m, 12) == 0 && U32(m, 16) == 0 && U32(m, 20) == 0 && U32(m, 24) == 0
    && U32(m, 28) == 12 && U32(m, 32) == 20
  }

  lemma TwoEmptyKeysPass(m: Bytes)
    requires TwoEmptyKeys(m)
    ensures ValidContainer(m, 0, true)
  {
    hide U32, Less;
    NothingBelowEmpty();
    assert EntryKeyAt(m, 12) == [] && EntryKeyAt(m, 20) == [];
    assert EntryBytes(m, 12) == 8 && EntryBytes(m, 20) == 8;
    assert HasEntry(m, 0, 28, 12) && HasEntry(m, 0, 28, 20);
    assert ValidEntry(m, 0, 0);
    assert ValidEntry(m, 0, 1);
  }

  lemma TwoEmptyKeysAreNoObject(m: Bytes)
    requires TwoEmptyKeys(m)
    ensures Doc(m).None?
  {
    hide U32, Less, EntryAt, ValueAt, ArrayDoc;
    if Doc(m).Some? {
      var ms := Doc(m).value.members;
      ObjectHasKeys(m, ms);
      assert KeyAt(m, 0) == [] && KeyAt(m, 1) == [];
      assert Keys(ms)[0] == ms[0].0 && Keys(ms)[1] == ms[1].0;
      EarlierIsLess(ms, 0, 1);
    }
  }

  /** The converse of what follows is false: the checks accept repeated keys, which the layout rules out. */
  lemma RepeatedKeyPasses()
    ensures ValidContainer(REPEATED_KEY, 0, true) && Doc(REPEATED_KEY).None?
  {
    hide ValidContainer, Doc, U32;
    RepeatedKeyWords();
    TwoEmptyKeysPass(REPEATED_KEY);
    TwoEmptyKeysAreNoObject(REPEATED_KEY);
  }

  /** A well-formed container passes the check for what it is used as, wherever it lies in memory. */
  lemma {:induction false} ContainerAccepted(m: Bytes, base: nat, b: Bytes, isObject: bool)
    requires Holds(m, base, b) && Contents(b, isObject).Some?
    ensures ValidContainer(m, base, isObject)
    decreases |b|, 0
  {
    hide ValidEntry, ValidValue, ValueAt, EntryAt, U32;
    var p := Split(b).value;
    HeldTable(m, base, b, p);
    if isObject {
      var ms := Contents(b, isObject).value.members;
      ObjectDocIs(p.data, p.table, ms);
      forall i | 0 <= i < |p.table|
        ensures ValidEntry(m, base, i)
      {
        EntryAccepted(m, base, p.data, p.table, ms, i);
      }
    } else {
      forall i | 0 <= i < |p.table|
        ensures ValidValue(m, base, TableOffset(b), U32(m, base + TableOffset(b) + 4 * i))
      {
        ArrayItem(p.data, p.table, i);
        ValueAccepted(m, base, p.data, p.table[i]);
      }
    }
  }
}
