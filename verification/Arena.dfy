/**
  The binary layout. A container is a block of bytes: a 12-byte header (size, tag and
  length, table offset), the data region, and a table of words. The table of an array
  holds value words; the table of an object holds offsets of entries, each a value word
  followed by a length-prefixed key. Offsets count from the start of the container.

  `Contents` gives the JSON value a block stands for when it is used as an array or as an
  object, or `None` when the block breaks the layout: offsets in bounds and 4-aligned,
  payloads below the table, strictly ascending keys, and no more storage in use than
  there is. The tag of a block only decides when it is a root (`Doc`); a nested block is
  used as what the value word that refers to it says.
 */
module Arena {
  import opened Bytes
  import opened Numbers
  import opened Json

  const HEADER: nat := 12

  // JsonValue::Type
  const T_NULL: nat := 0
  const T_BOOL: nat := 1
  const T_DOUBLE: nat := 2
  const T_STRING: nat := 3
  const T_ARRAY: nat := 4
  const T_OBJECT: nat := 5

  // ---------------------------------------------------------------------
  // Header and table
  // ---------------------------------------------------------------------

  function Size(b: Bytes): nat
    requires |b| >= HEADER
  {
    U32(b, 0)
  }

  predicate IsObject(b: Bytes)
    requires |b| >= HEADER
  {
    U32(b, 4) % 2 == 1
  }

  function Length(b: Bytes): nat
    requires |b| >= HEADER
  {
    U32(b, 4) / 2
  }

  function TableOffset(b: Bytes): nat
    requires |b| >= HEADER
  {
    U32(b, 8)
  }

  function Words(b: Bytes, at: nat, n: nat): (t: seq<word>)
    requires at + 4 * n <= |b|
    ensures |t| == n
    ensures forall i :: 0 <= i < n ==> t[i] == U32(b, at + 4 * i)
  {
    seq(n, i requires 0 <= i < n => U32(b, at + 4 * i))
  }

  datatype Parts = Parts(isObject: bool, data: Bytes, table: seq<word>)

  /** Header, data region and table of a block; the data region of an empty container is empty. */
  function Split(b: Bytes): (r: Option<Parts>)
    ensures r.Some? ==> |b| >= HEADER && |r.value.data| <= |b| - HEADER
  {
    if |b| < HEADER || Size(b) != |b| || |b| % 4 != 0 then None
    else
      var n, tab := Length(b), TableOffset(b);
      if tab + 4 * n > |b| || tab % 4 != 0 || (n > 0 && tab < HEADER) then None
      else Some(Parts(IsObject(b), if n == 0 then [] else b[HEADER..tab], Words(b, tab, n)))
  }

  // ---------------------------------------------------------------------
  // What values, entries and containers stand for
  // ---------------------------------------------------------------------

  /** The `n` payload bytes at container offset `off` of data region `d`. */
  predicate InData(d: Bytes, off: nat, n: nat) {
    HEADER <= off && off % 4 == 0 && off - HEADER + n <= |d|
  }

  function ValueAt(d: Bytes, w: word): (r: Option<Json>)
    decreases |d|, 2
  {
    var off := ValueField(w);
    var ty := TypeField(w);
    if ty == T_NULL then Some(Null)
    else if ty == T_BOOL then Some(Bool(off != 0))
    else if ty == T_DOUBLE then
      if IntField(w) == 1 then Some(Num(Int(SignedField(w))))
      else if InData(d, off, 8) then Some(Num(Canonical(d[off - HEADER..off - HEADER + 8])))
      else None
    else if ty == T_STRING then StringAt(d, off)
    else if ty == T_ARRAY || ty == T_OBJECT then
      ContainerAt(d, off, ty == T_OBJECT)
    else None
  }

  /** The nested block at `off`, as long as its own size field says. */
  predicate HasBlock(d: Bytes, off: nat) {
    InData(d, off, HEADER) && InData(d, off, U32(d, off - HEADER))
  }

  function Block(d: Bytes, off: nat): (b: Bytes)
    requires HasBlock(d, off)
    ensures |b| <= |d|
  {
    d[off - HEADER..off - HEADER + U32(d, off - HEADER)]
  }

  /** A nested container; whether it is an object is up to the value word that refers to it. */
  function ContainerAt(d: Bytes, off: nat, isObject: bool): (r: Option<Json>)
    ensures r.Some? ==> if isObject then r.value.Obj? else r.value.Arr?
    decreases |d|, 1
  {
    if HasBlock(d, off) then Contents(Block(d, off), isObject) else None
  }

  function StringBytes(d: Bytes, off: nat): Option<Bytes> {
    if InData(d, off, 4) && InData(d, off, 4 + Align4(U32(d, off - HEADER))) then
      Some(d[off - HEADER + 4..off - HEADER + 4 + U32(d, off - HEADER)])
    else None
  }

  function StringAt(d: Bytes, off: nat): Option<Json> {
    match StringBytes(d, off)
    case Some(s) => Some(Str(s))
    case None => None
  }

  /** An entry: value word, then key. */
  function EntryAt(d: Bytes, e: word): (r: Option<Member>)
    decreases |d|, 3
  {
    if InData(d, e, 8) && StringBytes(d, e + 4).Some? && ValueAt(d, U32(d, e - HEADER)).Some? then
      Some((StringBytes(d, e + 4).value, ValueAt(d, U32(d, e - HEADER)).value))
    else None
  }

  /** What a block stands for when it is used as an object, or as an array, whatever its tag says. */
  function Contents(b: Bytes, isObject: bool): (r: Option<Json>)
    ensures r.Some? ==> if isObject then r.value.Obj? else r.value.Arr?
    decreases |b|, 0
  {
    match Split(b)
    case None => None
    case Some(p) => if isObject then ObjectDoc(p.data, p.table) else ArrayDoc(p.data, p.table)
  }

  /** What a block stands for as a root, where its tag decides. */
  function Doc(b: Bytes): (r: Option<Json>)
    ensures r.Some? ==> |b| >= HEADER && if IsObject(b) then r.value.Obj? else r.value.Arr?
  {
    if |b| >= HEADER then Contents(b, IsObject(b)) else None
  }

  function ArrayDoc(d: Bytes, t: seq<word>): (r: Option<Json>)
    ensures r.Some? ==> r.value.Arr? && |r.value.items| == |t|
    decreases |d|, 4
  {
    if (forall i :: 0 <= i < |t| ==> ValueAt(d, t[i]).Some?) && Sum(ValueSizes(d, t)) <= |d| then
      Some(Arr(seq(|t|, i requires 0 <= i < |t| => ValueAt(d, t[i]).value)))
    else None
  }

  function ObjectDoc(d: Bytes, t: seq<word>): (r: Option<Json>)
    ensures r.Some? ==> r.value.Obj? && |r.value.members| == |t|
    decreases |d|, 4
  {
    if (forall i :: 0 <= i < |t| ==> EntryAt(d, t[i]).Some?) && Sum(EntrySizes(d, t)) <= |d| then
      var ms := seq(|t|, i requires 0 <= i < |t| => EntryAt(d, t[i]).value);
      if Ascending(Keys(ms)) then Some(Obj(ms)) else None
    else None
  }

  // ---------------------------------------------------------------------
  // Storage in use
  // ---------------------------------------------------------------------

  /** `Value::usedStorage`: bytes of payload a value word refers to. */
  function UsedStorage(d: Bytes, w: word): (s: nat) {
    var off := ValueField(w);
    var ty := TypeField(w);
    if ty == T_DOUBLE then (if IntField(w) == 1 then 0 else 8)
    else if ty == T_STRING && InData(d, off, 4) then 4 + Align4(U32(d, off - HEADER))
    else if (ty == T_ARRAY || ty == T_OBJECT) && InData(d, off, 4) then Align4(U32(d, off - HEADER))
    else 0
  }

  /** `Entry::size`: value word, key length and padded key. */
  function EntrySize(d: Bytes, e: word): (s: nat)
    ensures s >= 8 && s % 4 == 0
  {
    if InData(d, e, 8) then 8 + Align4(U32(d, e - HEADER + 4)) else 8
  }

  /** `Entry::usedStorage` */
  function EntryStorage(d: Bytes, e: word): (s: nat) {
    EntrySize(d, e) + if InData(d, e, 4) then UsedStorage(d, U32(d, e - HEADER)) else 0
  }

  function ValueSizes(d: Bytes, t: seq<word>): (s: seq<nat>)
    ensures |s| == |t|
  {
    seq(|t|, i requires 0 <= i < |t| => UsedStorage(d, t[i]))
  }

  function EntrySizes(d: Bytes, t: seq<word>): (s: seq<nat>)
    ensures |s| == |t|
  {
    seq(|t|, i requires 0 <= i < |t| => EntryStorage(d, t[i]))
  }

  lemma BlockSizeAligned(b: Bytes, isObject: bool)
    requires Contents(b, isObject).Some?
    ensures |b| >= HEADER && Size(b) == |b| && Align4(|b|) == |b|
  {}

  lemma ContainerInData(d: Bytes, off: nat, isObject: bool)
    requires ContainerAt(d, off, isObject).Some?
    ensures InData(d, off, U32(d, off - HEADER)) && Align4(U32(d, off - HEADER)) == U32(d, off - HEADER)
  {
    BlockSizeAligned(Block(d, off), isObject);
  }

  /** The two kinds of value words that refer to nested containers. */
  predicate IsNested(w: word) {
    TypeField(w) == T_ARRAY || TypeField(w) == T_OBJECT
  }

  lemma NestedValue(d: Bytes, w: word)
    requires IsNested(w)
    ensures ValueAt(d, w) == ContainerAt(d, ValueField(w), TypeField(w) == T_OBJECT)
  {
    hide ContainerAt, TypeField, ValueField, IntField;
  }

  lemma BlockContents(d: Bytes, off: nat, isObject: bool)
    requires HasBlock(d, off)
    ensures ContainerAt(d, off, isObject) == Contents(Block(d, off), isObject) && InData(d, off, 4)
  {
    hide Contents, Block, U32;
  }

  lemma NestedStorage(d: Bytes, w: word)
    requires IsNested(w) && InData(d, ValueField(w), 4)
    ensures UsedStorage(d, w) == Align4(U32(d, ValueField(w) - HEADER))
  {
    hide TypeField, ValueField, IntField, U32, Align4;
  }

  lemma StringStorage(d: Bytes, w: word)
    requires TypeField(w) == T_STRING && InData(d, ValueField(w), 4)
    ensures UsedStorage(d, w) == 4 + Align4(U32(d, ValueField(w) - HEADER))
  {
    hide TypeField, ValueField, IntField, U32, Align4;
  }

  lemma UsedStorageAligned(d: Bytes, w: word)
    ensures UsedStorage(d, w) % 4 == 0
  {}

  /** The payload of a well-formed value lies in the data region. */
  lemma PayloadInData(d: Bytes, w: word)
    requires ValueAt(d, w).Some? && UsedStorage(d, w) > 0
    ensures InData(d, ValueField(w), UsedStorage(d, w))
  {
    var off, ty := ValueField(w), TypeField(w);
    if ty == T_ARRAY || ty == T_OBJECT {
      ContainerInData(d, off, ty == T_OBJECT);
    }
  }

  // ---------------------------------------------------------------------
  // Appending to the data region changes nothing that was there
  // ---------------------------------------------------------------------

  lemma U32OfPrefix(d: Bytes, x: Bytes, i: nat)
    requires i + 4 <= |d|
    ensures U32(d + x, i) == U32(d, i)
  {
    U32Moved(d + x, i, d, i);
  }

  lemma SliceOfPrefix(d: Bytes, x: Bytes, i: nat, j: nat)
    requires i <= j <= |d|
    ensures (d + x)[i..j] == d[i..j]
  {}

  lemma StringGrows(d: Bytes, x: Bytes, off: nat)
    requires StringBytes(d, off).Some?
    ensures StringBytes(d + x, off) == StringBytes(d, off)
  {
    var o := off - HEADER;
    U32OfPrefix(d, x, o);
    SliceOfPrefix(d, x, o + 4, o + 4 + U32(d, o));
  }

  lemma ContainerGrows(d: Bytes, x: Bytes, off: nat, isObject: bool)
    requires ContainerAt(d, off, isObject).Some?
    ensures ContainerAt(d + x, off, isObject) == ContainerAt(d, off, isObject)
    ensures U32(d + x, off - HEADER) == U32(d, off - HEADER)
  {
    U32OfPrefix(d, x, off - HEADER);
    SliceOfPrefix(d, x, off - HEADER, off - HEADER + U32(d, off - HEADER));
    assert Block(d + x, off) == Block(d, off);
  }

  lemma DoubleGrows(d: Bytes, x: Bytes, w: word)
    requires TypeField(w) == T_DOUBLE && ValueAt(d, w).Some?
    ensures ValueAt(d + x, w) == ValueAt(d, w)
  {
    if IntField(w) != 1 {
      SliceOfPrefix(d, x, ValueField(w) - HEADER, ValueField(w) - HEADER + 8);
    }
  }

  lemma ValueGrows(d: Bytes, x: Bytes, w: word)
    requires ValueAt(d, w).Some?
    ensures ValueAt(d + x, w) == ValueAt(d, w)
  {
    var off, ty := ValueField(w), TypeField(w);
    if ty == T_STRING {
      StringGrows(d, x, off);
    } else if ty == T_ARRAY || ty == T_OBJECT {
      ContainerGrows(d, x, off, ty == T_OBJECT);
    } else if ty == T_DOUBLE {
      DoubleGrows(d, x, w);
    }
  }

  lemma StorageGrows(d: Bytes, x: Bytes, w: word)
    requires ValueAt(d, w).Some?
    ensures UsedStorage(d + x, w) == UsedStorage(d, w)
  {
    var off, ty := ValueField(w), TypeField(w);
    if ty == T_STRING || ty == T_ARRAY || ty == T_OBJECT {
      U32OfPrefix(d, x, off - HEADER);
    }
  }

  lemma EntryGrows(d: Bytes, x: Bytes, e: word)
    requires EntryAt(d, e).Some?
    ensures EntryAt(d + x, e) == EntryAt(d, e)
  {
    U32OfPrefix(d, x, e - HEADER);
    StringGrows(d, x, e + 4);
    ValueGrows(d, x, U32(d, e - HEADER));
  }

  lemma EntryStorageGrows(d: Bytes, x: Bytes, e: word)
    requires EntryAt(d, e).Some?
    ensures EntryStorage(d + x, e) == EntryStorage(d, e) && EntrySize(d + x, e) == EntrySize(d, e)
  {
    U32OfPrefix(d, x, e - HEADER);
    U32OfPrefix(d, x, e - HEADER + 4);
    StorageGrows(d, x, U32(d, e - HEADER));
  }
}
