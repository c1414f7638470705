/**
  Values on their way into a container: how much storage they need, which word refers to
  them, which bytes they are copied as, and what is read back.
 */
module Values {
  import opened Bytes
  import opened Numbers
  import opened Json
  import opened Arena
  import opened Blocks

  /**
    A `JsonValue` at the moment it is stored. A container is the block its handle points
    to; `None` is a handle without data, as a default-constructed array or object has.
   */
  datatype Stored =
    | Undefined
    | Nothing
    | Truth(b: bool)
    | Real(bits: Double)
    | Text(s: Bytes)
    | Container(isObject: bool, block: Option<Bytes>)

  /** Blocks handed over for storing are well-formed, used as what the handle says. */
  predicate Storable(v: Stored) {
    v.Container? && v.block.Some? ==> Contents(v.block.value, v.isObject).Some?
  }

  /** The value as JSON; storing `Undefined` stores null. */
  function Meaning(v: Stored): Json
    requires Storable(v)
  {
    match v
    case Undefined => Null
    case Nothing => Null
    case Truth(b) => Bool(b)
    case Real(bits) => Num(Canonical(bits))
    case Text(s) => Str(s)
    case Container(isObject, block) =>
      if block.Some? then Contents(block.value, isObject).value else if isObject then Obj([]) else Arr([])
  }

  predicate IsCompressed(v: Stored) {
    v.Real? && Compressed(Bits(v.bits)).Some?
  }

  /** `Value::requiredStorage` */
  function RequiredStorage(v: Stored): (n: nat) {
    match v
    case Real(_) => if IsCompressed(v) then 0 else 8
    case Text(s) => Align4(4 + |s|)
    case Container(_, block) => if block.Some? then |block.value| else HEADER
    case _ => 0
  }

  function TypeCode(v: Stored): (t: nat)
    ensures t < 8
  {
    match v
    case Undefined => T_NULL
    case Nothing => T_NULL
    case Truth(_) => T_BOOL
    case Real(_) => T_DOUBLE
    case Text(_) => T_STRING
    case Container(isObject, _) => if isObject then T_OBJECT else T_ARRAY
  }

  /** `Value::valueToStore` */
  function ValueToStore(v: Stored, off: nat): (x: int)
    requires off < TWO_TO_THE_27
    ensures -TWO_TO_THE_26 <= x < TWO_TO_THE_27
  {
    match v
    case Undefined => 0
    case Nothing => 0
    case Truth(b) => if b then 1 else 0
    case Real(bits) =>
      CompressedFits(Bits(bits));
      if IsCompressed(v) then Compressed(Bits(bits)).value else off
    case _ => off
  }

  /** `emptyArray` and `emptyObject`: both have a zero length word, so both are tagged as arrays. */
  function EmptyBase(): (b: Bytes)
    ensures |b| == HEADER
  {
    LE4(HEADER) + LE4(0) + LE4(0)
  }

  /** `Value::copyData`. For a string, the padding is left as it was. */
  function CopiedBytes(v: Stored): (x: Bytes)
    requires v.Text? ==> |v.s| < 0x8000_0000
    ensures |x| <= RequiredStorage(v)
  {
    match v
    case Real(bits) => if IsCompressed(v) then [] else bits
    case Text(s) => LE4(|s|) + s
    case Container(_, block) => if block.Some? then block.value else EmptyBase()
    case _ => []
  }

  /** The word `v.type = ...; v.intValue = ...; v.value = ...` leaves behind. */
  predicate IsWordFor(w: word, v: Stored, off: nat)
    requires off < TWO_TO_THE_27
  {
    exists prior: word :: w == PackWord(prior, TypeCode(v), IsCompressed(v), ValueToStore(v, off))
  }

  lemma RequiredIsAligned(v: Stored)
    requires Storable(v)
    ensures RequiredStorage(v) % 4 == 0
  {
    hide Contents, Compressed, Bits;
    if v.Container? && v.block.Some? {
      BlockSizeAligned(v.block.value, v.isObject);
    }
  }

  /** `v` has been copied to offset `off` of the data region `d`. */
  predicate CopiedTo(d: Bytes, off: nat, v: Stored) {
    && HEADER <= off < TWO_TO_THE_27 && off % 4 == 0
    && off - HEADER + RequiredStorage(v) <= |d|
    && (v.Text? ==> |v.s| < 0x8000_0000)
    && d[off - HEADER..off - HEADER + |CopiedBytes(v)|] == CopiedBytes(v)
  }

  lemma StoredString(d: Bytes, off: nat, v: Stored, w: word)
    requires v.Text? && CopiedTo(d, off, v)
    requires TypeField(w) == T_STRING && ValueField(w) == off
    ensures ValueAt(d, w) == Some(Str(v.s))
    ensures UsedStorage(d, w) == RequiredStorage(v)
  {
    hide TypeField, ValueField, LE4;
    var o, x, n := off - HEADER, LE4(|v.s|), |v.s|;
    SliceOfSlice(d, o, o + 4 + n, 0, 4);
    SliceOfSlice(d, o, o + 4 + n, 4, 4 + n);
    assert (x + v.s)[0..4] == x[0..4] && (x + v.s)[4..4 + n] == v.s;
    U32Moved(d, o, x, 0);
    U32OfLE4(n);
    Align4Plus4(n);
  }

  lemma StoredBlock(d: Bytes, off: nat, b: Bytes, w: word)
    requires HEADER <= off && off % 4 == 0 && off - HEADER + |b| <= |d|
    requires d[off - HEADER..off - HEADER + |b|] == b && Contents(b, TypeField(w) == T_OBJECT).Some?
    requires IsNested(w) && ValueField(w) == off
    ensures ValueAt(d, w) == Contents(b, TypeField(w) == T_OBJECT)
    ensures UsedStorage(d, w) == |b|
  {
    hide *;
    BlockThere(d, off, b, TypeField(w) == T_OBJECT);
    BlockValue(d, w);
  }

  lemma BlockValue(d: Bytes, w: word)
    requires IsNested(w) && HasBlock(d, ValueField(w))
    ensures ValueAt(d, w) == Contents(Block(d, ValueField(w)), TypeField(w) == T_OBJECT)
    ensures InData(d, ValueField(w), 4) && UsedStorage(d, w) == Align4(U32(d, ValueField(w) - HEADER))
  {
    hide *;
    BlockContents(d, ValueField(w), TypeField(w) == T_OBJECT);
    NestedValue(d, w);
    NestedStorage(d, w);
  }

  lemma BlockThere(d: Bytes, off: nat, b: Bytes, isObject: bool)
    requires HEADER <= off && off % 4 == 0 && off - HEADER + |b| <= |d|
    requires d[off - HEADER..off - HEADER + |b|] == b && Contents(b, isObject).Some?
    ensures HasBlock(d, off) && Block(d, off) == b && U32(d, off - HEADER) == |b| && Align4(|b|) == |b|
  {
    hide Contents, U32;
    BlockSizeAligned(b, isObject);
    var o := off - HEADER;
    SliceOfSlice(d, o, o + |b|, 0, 4);
    U32Moved(d, o, b, 0);
  }

  /** The static empty block passes for an empty array and for an empty object; as a root it is an array. */
  lemma EmptyBaseDoc(isObject: bool)
    ensures Contents(EmptyBase(), isObject) == Some(if isObject then Obj([]) else Arr([]))
    ensures |EmptyBase()| == HEADER && !IsObject(EmptyBase()) && Doc(EmptyBase()) == Some(Arr([]))
  {
    var b := EmptyBase();
    assert TagWord(false, 0) == 0;
    HeaderFields(HEADER, false, 0, 0, []);
    assert Header(HEADER, false, 0, 0) + [] == b;
    EmptySplit(b, false, 0);
    EmptyDoc(b, false, isObject);
    EmptyDoc(b, false, false);
  }

  /** What has been stored is read back, in the storage set aside for it. */
  lemma StoredReadsBack(d: Bytes, off: nat, v: Stored, w: word)
    requires Storable(v) && CopiedTo(d, off, v) && IsWordFor(w, v, off)
    ensures ValueAt(d, w) == Some(Meaning(v))
    ensures UsedStorage(d, w) == RequiredStorage(v)
  {
    hide Contents, U32;
    var prior: word :| w == PackWord(prior, TypeCode(v), IsCompressed(v), ValueToStore(v, off));
    PackedFields(prior, TypeCode(v), IsCompressed(v), ValueToStore(v, off));
    match v
    case Text(s) =>
      StoredString(d, off, v, w);
    case Container(isObject, block) =>
      if block.Some? {
        StoredBlock(d, off, block.value, w);
      } else {
        EmptyBaseDoc(isObject);
        StoredBlock(d, off, EmptyBase(), w);
      }
    case Real(bits) =>
      if IsCompressed(v) {
        CompressedFits(Bits(bits));
        PackedSigned(prior, T_DOUBLE, true, ValueToStore(v, off));
      } else {
        assert d[off - HEADER..off - HEADER + 8] == bits;
      }
    case _ =>
  }

  /** What the values that can be stored are as JSON. */
  lemma Meanings(b: bool, d: Double, x: Bytes, isObject: bool, block: Bytes)
    ensures Meaning(Nothing) == Null == Meaning(Undefined)
    ensures Meaning(Truth(b)) == Bool(b) && Meaning(Text(x)) == Str(x) && Meaning(Real(d)) == Num(Canonical(d))
    ensures Meaning(Container(true, None)) == Obj([]) && Meaning(Container(false, None)) == Arr([])
    ensures Contents(block, isObject).Some? ==>
              Some(Meaning(Container(isObject, Some(block)))) == Contents(block, isObject)
  {}

  // ---------------------------------------------------------------------
  // Kinds: what the word says, and what the tag of the copied block says
  // ---------------------------------------------------------------------

  /** An object handle without data. */
  predicate IsNullObject(v: Stored) {
    v.Container? && v.isObject && v.block.None?
  }

  /** As a root, a block used as an array or as an object is that only under the right tag. */
  lemma RootKind(b: Bytes, isObject: bool)
    requires Contents(b, isObject).Some?
    ensures |b| >= HEADER && (Doc(b) == Contents(b, isObject) <==> IsObject(b) == isObject)
  {
    BlockSizeAligned(b, isObject);
  }

  /**
    A stored container, moved to a buffer of its own as `clone` does: as long as a handle
    uses it, it is what was stored. As a root it is that exactly when the block handed over
    was, and an object handle without data hands over one that is not.
   */
  lemma StoredRoot(d: Bytes, off: nat, v: Stored, w: word)
    requires Storable(v) && v.Container? && CopiedTo(d, off, v) && IsWordFor(w, v, off)
    ensures HasBlock(d, off) && Contents(Block(d, off), v.isObject) == Some(Meaning(v))
    ensures v.block.Some? ==> (Doc(Block(d, off)) == Some(Meaning(v)) <==> Doc(v.block.value) == Some(Meaning(v)))
    ensures v.block.None? ==> (Doc(Block(d, off)) == Some(Meaning(v)) <==> !IsNullObject(v))
    ensures IsNullObject(v) ==> Doc(Block(d, off)) == Some(Arr([]))
  {
    hide Contents, Doc, U32;
    EmptyBaseDoc(v.isObject);
    BlockThere(d, off, CopiedBytes(v), v.isObject);
  }

  /**
    An object under the tag of an array, as filling a null object's block leaves one: once
    there is an entry right behind the header, the root is not even an array.
   */
  lemma MistaggedRoot(b: Bytes, i: nat)
    requires Split(b).Some? && !Split(b).value.isObject
    requires i < |Split(b).value.table| && Split(b).value.table[i] == HEADER
    ensures Doc(b).None?
  {
    hide U32;
    var p := Split(b).value;
    assert ValueAt(p.data, p.table[i]).None?;
    assert ArrayDoc(p.data, p.table).None?;
    assert Doc(b) == Contents(b, false);
  }
}
