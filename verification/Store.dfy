/**
  `Data`: a reference-counted buffer holding one root container, and the edits made to it
  in place. Everything is stated about the JSON value the root stands for.
 */
module Store {
  import opened Bytes
  import opened Numbers
  import opened Json
  import opened Arena
  import opened Blocks
  import opened Layout
  import opened Search
  import opened Tables
  import opened Values
  import opened Compaction

  /** `sizeof(Header)`: tag and version, in front of the body. */
  const FILE_HEADER: nat := 8

  // ---------------------------------------------------------------------
  // What an edit of the parts of a container means
  // ---------------------------------------------------------------------

  lemma ArrayInsertion(d: Bytes, y: Bytes, t: seq<word>, vs: seq<Json>, i: nat, v: Stored, w: word)
    requires ArrayDoc(d, t) == Some(Arr(vs)) && i <= |t|
    requires Storable(v) && |y| == RequiredStorage(v)
    requires CopiedTo(d + y, HEADER + |d|, v) && IsWordFor(w, v, HEADER + |d|)
    ensures ArrayDoc(d + y, Inserted(t, i, w)) == Some(Arr(Inserted(vs, i, Meaning(v))))
  {
    hide ArrayDoc, ValueAt, UsedStorage, CopiedTo;
    ArrayGrows(d, y, t);
    StoredReadsBack(d + y, HEADER + |d|, v, w);
    ArrayStorage(d, t);
    ArrayInserted(d + y, t, i, w, Meaning(v));
  }

  lemma ArrayReplacement(d: Bytes, y: Bytes, t: seq<word>, vs: seq<Json>, i: nat, v: Stored, w: word)
    requires ArrayDoc(d, t) == Some(Arr(vs)) && i < |t|
    requires Storable(v) && |y| == RequiredStorage(v)
    requires CopiedTo(d + y, HEADER + |d|, v) && IsWordFor(w, v, HEADER + |d|)
    ensures ArrayDoc(d + y, t[i := w]) == Some(Arr(vs[i := Meaning(v)]))
  {
    hide ArrayDoc, ValueAt, UsedStorage, CopiedTo;
    ArrayGrows(d, y, t);
    StoredReadsBack(d + y, HEADER + |d|, v, w);
    ArrayStorage(d, t);
    ArrayReplaced(d + y, t, i, w, Meaning(v));
  }

  lemma ArrayStorage(d: Bytes, t: seq<word>)
    requires ArrayDoc(d, t).Some?
    ensures Sum(ValueSizes(d, t)) <= |d|
  {}

  lemma ObjectStorage(d: Bytes, t: seq<word>)
    requires ObjectDoc(d, t).Some?
    ensures Sum(EntrySizes(d, t)) <= |d|
  {}

  /** `sizeof(Entry) + qStringSize(key)` */
  function KeySize(key: Key): (n: nat)
    ensures n % 4 == 0 && n >= 8 + |key|
  {
    4 + Align4(4 + |key|)
  }

  lemma EntryIsRead(d: Bytes, e: nat, w: word, key: Key)
    requires |key| < 0x8000_0000 && HEADER <= e < TWO_TO_THE_27 && e % 4 == 0
    requires e - HEADER + KeySize(key) <= |d|
    requires U32(d, e - HEADER) == w && U32(d, e - HEADER + 4) == |key|
    requires d[e - HEADER + 8..e - HEADER + 8 + |key|] == key
    ensures StringBytes(d, e + 4) == Some(key) && InData(d, e, 8)
    ensures EntrySize(d, e) == KeySize(key)
    ensures EntryStorage(d, e) == KeySize(key) + UsedStorage(d, w)
    ensures ValueAt(d, w).Some? ==> EntryAt(d, e) == Some((key, ValueAt(d, w).value))
    ensures ValueAt(d, w).None? ==> EntryAt(d, e).None?
  {
    hide ValueAt, UsedStorage;
    Align4Plus4(|key|);
  }

  lemma ObjectInsertion(d: Bytes, y: Bytes, t: seq<word>, ms: seq<Member>, key: Key, v: Stored, w: word)
    requires ObjectDoc(d, t) == Some(Obj(ms)) && |key| < 0x8000_0000
    requires Storable(v) && |y| == KeySize(key) + RequiredStorage(v)
    requires var e := HEADER + |d|;
             && e + KeySize(key) < TWO_TO_THE_27 && e % 4 == 0
             && U32(d + y, |d|) == w && U32(d + y, |d| + 4) == |key|
             && (d + y)[|d| + 8..|d| + 8 + |key|] == key
             && CopiedTo(d + y, e + KeySize(key), v) && IsWordFor(w, v, e + KeySize(key))
    ensures var r := Rank(Keys(ms), key);
            var e: word := HEADER + |d|;
            ObjectDoc(d + y, if Present(Keys(ms), key) then t[r := e] else Inserted<word>(t, r, e)) ==
            Some(Obj(Put(ms, key, Meaning(v))))
  {
    hide ObjectDoc, ValueAt, UsedStorage, EntryAt, EntryStorage, StringBytes, Put, Present;
    var e := HEADER + |d|;
    ObjectGrows(d, y, t);
    ObjectStorage(d, t);
    StoredReadsBack(d + y, e + KeySize(key), v, w);
    EntryIsRead(d + y, e, w, key);
    ObjectPut(d + y, t, ms, e, key, Meaning(v));
  }

  lemma ShortTable(s: Bytes, size: nat, isObject: bool, d: Bytes, t: seq<word>)
    requires Laid(s, size, isObject, d, t)
    ensures |d| <= size && 4 * |t| <= size && HEADER + |d| + 4 * |t| <= size && (HEADER + |d|) % 4 == 0
  {
    hide U32, Words;
  }

  lemma LaidDoc(s: Bytes, size: nat, isObject: bool, d: Bytes, t: seq<word>)
    requires Laid(s, size, isObject, d, t) && (t != [] || d == [])
    ensures Contents(s[..size], true) == ObjectDoc(d, t) && Contents(s[..size], false) == ArrayDoc(d, t)
    ensures size >= HEADER && IsObject(s[..size]) == isObject
  {
    LaidSplit(s, size, isObject, d, t);
  }

  /** Copying a value's bytes into the room made for it. */
  lemma ValueCopied(d: Bytes, room: Bytes, v: Stored)
    requires Storable(v) && |room| == RequiredStorage(v)
    requires (HEADER + |d|) % 4 == 0 && HEADER + |d| < TWO_TO_THE_27 && (v.Text? ==> |v.s| < 0x8000_0000)
    ensures var y := Write(room, 0, CopiedBytes(v));
            Write(d + room, |d|, CopiedBytes(v)) == d + y && CopiedTo(d + y, HEADER + |d|, v)
    ensures RequiredStorage(v) == 0 ==> CopiedBytes(v) == []
  {
    hide RequiredStorage, CopiedBytes;
    var x := CopiedBytes(v);
    var y := Write(room, 0, x);
    assert y == x + room[|x|..];
    assert Write(d + room, |d|, x) == d + y;
    assert (d + y)[|d|..|d| + |x|] == x;
  }

  lemma WriteInRoom(d: Bytes, room: Bytes, k: nat, x: Bytes)
    requires k + |x| <= |room|
    ensures Write(d + room, |d| + k, x) == d + Write(room, k, x)
  {
    var r := Write(room, k, x);
    assert r == room[..k] + x + room[k + |x|..];
    assert Write(d + room, |d| + k, x) == d + r;
  }

  /** `copyString` after the value word, then `copyData`. */
  function KeyBytes(key: Key): (x: Bytes)
    requires |key| < 0x8000_0000
    ensures |x| == 4 + |key|
  {
    LE4(|key|) + key
  }

  function EntryRoom(room: Bytes, w: word, key: Key, v: Stored): (y: Bytes)
    requires Storable(v) && |room| == KeySize(key) + RequiredStorage(v)
    requires |key| < 0x8000_0000 && (v.Text? ==> |v.s| < 0x8000_0000)
    ensures |y| == |room|
  {
    Write(Write(Write(room, 0, LE4(w)), 4, KeyBytes(key)), KeySize(key), CopiedBytes(v))
  }

  lemma EntryRoomIs(room: Bytes, w: word, key: Key, v: Stored)
    requires Storable(v) && |room| == KeySize(key) + RequiredStorage(v)
    requires |key| < 0x8000_0000 && (v.Text? ==> |v.s| < 0x8000_0000)
    ensures var y := EntryRoom(room, w, key, v);
            && U32(y, 0) == w && U32(y, 4) == |key| && y[8..8 + |key|] == key
            && y[KeySize(key)..KeySize(key) + |CopiedBytes(v)|] == CopiedBytes(v)
  {
    hide CopiedBytes, RequiredStorage, Storable, U32, LE4;
    var k, n := KeySize(key), |key|;
    var a := Write(room, 0, LE4(w));
    var b := Write(a, 4, KeyBytes(key));
    var y := Write(b, k, CopiedBytes(v));
    SubSlice(b, a, 0, 4, 0, 4);
    SubSlice(y, b, 0, k, 0, 4);
    U32Moved(y, 0, LE4(w), 0);
    U32OfLE4(w);
    SubSlice(y, b, 0, k, 4, 8 + n);
    KeyRead(y, key);
  }

  lemma KeyRead(y: Bytes, key: Key)
    requires |key| < 0x8000_0000 && 8 + |key| <= |y| && y[4..8 + |key|] == KeyBytes(key)
    ensures U32(y, 4) == |key| && y[8..8 + |key|] == key
  {
    var n, x := |key|, LE4(|key|);
    SliceOfSlice(y, 4, 8 + n, 0, 4);
    SliceOfSlice(y, 4, 8 + n, 4, 4 + n);
    assert (x + key)[0..4] == x[0..4] && (x + key)[4..4 + n] == key;
    U32Moved(y, 4, x, 0);
    U32OfLE4(n);
  }

  /** A complete entry in the room made for it is an object insertion. */
  lemma EntryStored(d: Bytes, room: Bytes, t: seq<word>, ms: seq<Member>, key: Key, v: Stored, w: word, e: word)
    requires ObjectDoc(d, t) == Some(Obj(ms)) && |key| < 0x8000_0000 && (v.Text? ==> |v.s| < 0x8000_0000)
    requires Storable(v) && |room| == KeySize(key) + RequiredStorage(v)
    requires e == HEADER + |d| && e % 4 == 0 && e + KeySize(key) < TWO_TO_THE_27
    requires IsWordFor(w, v, e + KeySize(key))
    ensures var r := Rank(Keys(ms), key);
            ObjectDoc(d + EntryRoom(room, w, key, v),
                      if Present(Keys(ms), key) then t[r := e] else Inserted<word>(t, r, e)) ==
            Some(Obj(Put(ms, key, Meaning(v))))
  {
    hide ObjectDoc, Storable, RequiredStorage, CopiedBytes, Meaning, EntryRoom, U32, Put, Present, IsWordFor;
    var y, n, k := EntryRoom(room, w, key, v), |d|, KeySize(key);
    EntryRoomIs(room, w, key, v);
    AfterPrefix(d, y, 0, 4);
    AfterPrefix(d, y, 4, 8);
    AfterPrefix(d, y, 8, 8 + |key|);
    AfterPrefix(d, y, k, k + |CopiedBytes(v)|);
    U32Moved(d + y, n, y, 0);
    U32Moved(d + y, n + 4, y, 4);
    ObjectInsertion(d, y, t, ms, key, v, w);
  }

  lemma AfterPrefix(d: Bytes, y: Bytes, i: nat, j: nat)
    requires i <= j <= |y|
    ensures (d + y)[|d| + i..|d| + j] == y[i..j]
  {}

  // ---------------------------------------------------------------------
  // Containers where they lie in a buffer
  // ---------------------------------------------------------------------

  predicate HasBlockAt(m: Bytes, base: nat) {
    base + HEADER <= |m| && HEADER <= U32(m, base) && base + U32(m, base) <= |m|
  }

  function BlockAt(m: Bytes, base: nat): (b: Bytes)
    requires HasBlockAt(m, base)
    ensures |b| == U32(m, base)
  {
    m[base..base + U32(m, base)]
  }

  /** What the container at `base` stands for, used as an array or as an object. */
  function ContentsAt(m: Bytes, base: nat, isObject: bool): (r: Option<Json>)
    ensures r.Some? ==> if isObject then r.value.Obj? else r.value.Arr?
  {
    if HasBlockAt(m, base) then Contents(BlockAt(m, base), isObject) else None
  }

  /** Compaction of the block moves no payload past what 27 bits can refer to. */
  predicate BlockFits(b: Bytes) {
    Split(b).Some? && Fits(Split(b).value)
  }

  /** The block has a table word at `pos`. */
  predicate HasSlot(b: Bytes, pos: nat) {
    |b| >= HEADER && pos < Length(b) && TableOffset(b) + 4 * Length(b) <= |b|
  }

  /** Memory after `removeItems` of one item of the container at `base`. */
  function WithoutItem(m: Bytes, base: nat, pos: nat): (r: Bytes)
    requires HasBlockAt(m, base) && HasSlot(BlockAt(m, base), pos)
    ensures |r| == |m|
  {
    Write(m, base, WithoutWord(BlockAt(m, base), pos))
  }

  lemma BlockHeader(m: Bytes, base: nat, isObject: bool)
    requires ContentsAt(m, base, isObject).Some?
    ensures HasBlockAt(m, base) && Size(BlockAt(m, base)) == |BlockAt(m, base)| >= HEADER
  {
    hide Contents;
    BlockSizeAligned(BlockAt(m, base), isObject);
  }

  /** A block written over one of the same size is found where that was. */
  lemma BlockWritten(m: Bytes, base: nat, x: Bytes)
    requires HasBlockAt(m, base) && |x| == U32(m, base) && Size(x) == |x|
    ensures var r := Write(m, base, x);
            HasBlockAt(r, base) && BlockAt(r, base) == x && U32(r, base) == U32(m, base)
  {
    hide U32;
    var r := Write(m, base, x);
    SliceOfSlice(r, base, base + |x|, 0, 4);
    U32Moved(r, base, x, 0);
  }

  class Data {
    /** Number of handles that share this buffer. */
    var ref: int
    /** The allocated memory after the 8-byte file header; the root container is at its start. */
    var body: Bytes
    var compactionCounter: nat

    predicate HasRoot()
      reads this`body
    {
      |body| >= HEADER && HEADER <= Size(body) <= |body|
    }

    function Root(): Bytes
      requires HasRoot()
      reads this`body
    {
      body[..Size(body)]
    }

    /** What the root stands for when it is used as an array or as an object. */
    function RootAs(isObject: bool): (r: Option<Json>)
      ensures r.Some? ==> if isObject then r.value.Obj? else r.value.Arr?
      reads this`body
    {
      if HasRoot() then Contents(Root(), isObject) else None
    }

    /** The root as JSON, if it is well-formed: its tag decides what it is. */
    function RootDoc(): Option<Json>
      reads this`body
    {
      if HasRoot() then Doc(Root()) else None
    }

    /** The tag of the root. */
    predicate IsTagged(isObject: bool)
      reads this`body
    {
      |body| >= HEADER && IsObject(body) == isObject
    }

    /** The root starts the buffer and has these parts. */
    ghost predicate Has(p: Parts)
      reads this`body
    {
      HasRoot() && Laid(body, Size(body), p.isObject, p.data, p.table)
    }

    lemma RootIs(p: Parts)
      requires Has(p) && (p.table != [] || p.data == [])
      ensures RootAs(true) == ObjectDoc(p.data, p.table) && RootAs(false) == ArrayDoc(p.data, p.table)
      ensures IsTagged(p.isObject)
    {
      LaidDoc(body, Size(body), p.isObject, p.data, p.table);
      RootHeader(body);
    }

    lemma RootAsIs(isObject: bool)
      requires HasRoot()
      ensures RootAs(isObject) == Contents(Root(), isObject)
    {}

    /** Used as what its tag says, and only then, the root is the document. */
    lemma TaggedRoot(isObject: bool)
      requires RootAs(isObject).Some?
      ensures RootDoc() == RootAs(isObject) <==> IsTagged(isObject)
    {
      RootHeader(body);
      RootKind(Root(), isObject);
    }

    /** The tag decides what the document is. */
    lemma RootTagged()
      requires RootDoc().Some?
      ensures HasRoot() && RootDoc() == Doc(Root()) == RootAs(IsObject(body)) && IsTagged(RootDoc().value.Obj?)
    {
      hide Contents;
      RootHeader(body);
    }

    lemma RootTag(p: Parts)
      requires Has(p)
      ensures IsTagged(p.isObject)
    {}

    lemma ArrayRoot(vs: seq<Json>)
      requires RootAs(false) == Some(Arr(vs))
      ensures HasRoot() && Split(Root()).Some?
      ensures var p := Split(Root()).value;
              && IsTagged(p.isObject) && |p.table| == |vs| && (p.table == [] ==> p.data == [])
              && ArrayDoc(p.data, p.table) == Some(Arr(vs))
    {
      ArrayParts(Root(), vs);
      RootHeader(body);
    }

    /** A new buffer with an empty root and `reserved` bytes to spare. */
    constructor (reserved: nat, isObject: bool)
      ensures ref == 0 && compactionCounter == 0
      ensures |body| == HEADER + reserved + 4 && Size(body) == HEADER
      ensures RootDoc() == Some(if isObject then Obj([]) else Arr([]))
    {
      ref := 0;
      compactionCounter := 0;
      var junk := Junk(reserved + 4);
      body := Header(HEADER, isObject, 0, HEADER) + junk;
      new;
      HeaderFields(HEADER, isObject, 0, HEADER, junk);
      var h := body[..HEADER];
      SameHeader(body, h);
      EmptySplit(h, isObject, HEADER);
      EmptyDoc(h, isObject, isObject);
    }

    constructor Raw(bytes: Bytes)
      ensures ref == 0 && compactionCounter == 0 && body == bytes
    {
      ref := 0;
      compactionCounter := 0;
      body := bytes;
    }

    /**
      `Data::clone`: this buffer itself, when the container at `base` is its root, nobody
      else shares it and there is room for `reserve` more bytes; otherwise a copy of just
      that container in a buffer of its own.
     */
    method Clone(base: nat, reserve: nat) returns (x: Data)
      requires base + HEADER <= |body| && HEADER <= U32(body, base) && base + U32(body, base) <= |body|
      ensures x == this <==> base == 0 && ref == 1 && |body| >= U32(body, base) + reserve
      ensures x != this ==>
                && fresh(x) && x.ref == 0 && x.compactionCounter == (if base == 0 then compactionCounter else 0)
                && U32(body, base) + reserve <= |x.body|
                && x.body[..U32(body, base)] == body[base..base + U32(body, base)]
    {
      var size: nat := U32(body, base);
      if base == 0 && ref == 1 && |body| >= size + reserve {
        return this;
      }
      var alloc := FILE_HEADER + size;
      if reserve != 0 {
        var room := if reserve < 128 then 128 else reserve;
        alloc := if alloc + room > 2 * alloc then alloc + room else 2 * alloc;
      }
      var junk := Junk(alloc - FILE_HEADER - size);
      x := new Data.Raw(body[base..base + size] + junk);
      if base == 0 {
        x.compactionCounter := compactionCounter;
      }
    }

    // -------------------------------------------------------------------
    // `Base`
    // -------------------------------------------------------------------

    /**
      `Base::reserveSpace` for one item: make room for `dataSize` bytes at the end of the
      data region by moving the table, and point the table word at `pos` to them. A fresh
      word is inserted unless an existing one is to be replaced. Answers 0, and changes
      nothing, when the container would reach the size limit.
     */
    method ReserveSpace(dataSize: nat, pos: nat, replace: bool, ghost p: Parts) returns (off: word)
      requires Has(p)
      requires dataSize % 4 == 0 && (if replace then pos < |p.table| else pos <= |p.table|)
      requires Size(body) + dataSize + (if replace then 0 else 4) <= |body|
      modifies this`body
      ensures off == 0 <==> Size(old(body)) + dataSize >= MAX_SIZE
      ensures off == 0 ==> body == old(body) && Has(p)
      ensures off != 0 ==>
                && off == HEADER + |p.data| && off % 4 == 0 && off + dataSize < TWO_TO_THE_27
                && |body| == |old(body)| && off + dataSize <= |body|
                && Has(Parts(p.isObject, p.data + body[off..off + dataSize],
                             if replace then p.table[pos := off] else Inserted<word>(p.table, pos, off)))
      ensures off != 0 ==> HEADER <= |body| && Size(body) == Size(old(body)) + dataSize + if replace then 0 else 4
    {
      hide U32, Words, SetWord, Gapped, Shifted, Relabelled;
      var size := Size(body);
      if size + dataSize >= MAX_SIZE {
        return 0;
      }
      ghost var before := body;
      ShortTable(body, size, p.isObject, p.data, p.table);
      off := TableOffset(body);
      MoveTable(off, Length(body), dataSize, pos, replace);
      ghost var gapped := body;
      if replace {
        ShiftedIs(before, off, |p.table|, dataSize, pos);
      } else {
        GappedIs(before, off, |p.table|, dataSize, pos);
      }
      GrowSizes(size, dataSize, |p.table|, replace);
      if replace {
        ReplacedIs(before, gapped, body, size, p.isObject, p.data, p.table, off, dataSize, pos);
      } else {
        ReservedIs(before, gapped, body, size, p.isObject, p.data, p.table, off, dataSize, pos);
      }
    }

    /** The part of `reserveSpace` that moves the table and fills in the new word. */
    method MoveTable(tab: word, n: nat, dataSize: nat, pos: nat, replace: bool)
      requires HEADER <= tab && (if replace then pos < n else pos <= n)
      requires tab + dataSize + 4 * n + (if replace then 0 else 4) <= |body|
      requires tab + dataSize + 4 * n + 4 < 0x8000_0000
      modifies this`body
      ensures body == if replace then Shifted(old(body), tab, n, dataSize, pos)
                      else Gapped(old(body), tab, n, dataSize, pos)
    {
      hide U32, SetWord;
      if replace {
        body := MemMove(body, tab + dataSize, tab, 4 * n);
      } else {
        body := MemMove(body, tab + 4 * (pos + 1) + dataSize, tab + 4 * pos, 4 * (n - pos));
        body := MemMove(body, tab + dataSize, tab, 4 * pos);
      }
      body := SetWord(body, 8, tab + dataSize);
      body := SetWord(body, tab + dataSize + 4 * pos, tab);
    }

    /** The part of `reserveSpace` that updates `size` and `length`. */
    method GrowSizes(size: nat, dataSize: nat, ghost n: nat, replace: bool)
      requires HEADER <= |body| && n < 0x1000_0000 && size + dataSize < 0x4000_0000
      requires Length(body) == n
      modifies this`body
      ensures body == if replace then SetWord(old(body), 0, size + dataSize)
                      else Relabelled(old(body), size + dataSize, n + 1)
    {
      ghost var before := body;
      HeaderWordSet(body, 0, size + dataSize);
      hide U32;
      body := SetWord(body, 0, size + dataSize);
      if !replace {
        body := SetWord(body, 4, U32(body, 4) % 2 + 2 * (U32(body, 4) / 2 + 1));
        body := SetWord(body, 0, size + dataSize + 4);
      }
    }

    /** `Base::removeItems` for one item. */
    method RemoveItem(pos: nat, ghost p: Parts)
      requires Has(p)
      requires pos < |p.table| && Size(body) < 0x8000_0000
      modifies this`body
      ensures |body| == |old(body)| && Has(Parts(p.isObject, p.data, Removed(p.table, pos)))
      ensures HEADER <= |body| && Size(body) == Size(old(body)) && TableOffset(body) == TableOffset(old(body))
      ensures Length(old(body)) == |p.table| && TableOffset(old(body)) + 4 * |p.table| <= |body|
      ensures body == WithoutWord(old(body), pos)
    {
      hide U32, Words, SetWord, Closed;
      ghost var before := body;
      ShortTable(body, Size(body), p.isObject, p.data, p.table);
      CloseGap(TableOffset(body), Length(body), pos);
      LengthAfterMove(before, body, HEADER + |p.data|, |p.table|, pos);
      ShrinkLength();
      RemovedIs(before, body, Size(before), p.isObject, p.data, p.table, pos);
    }

    /** `length -= 1` */
    method ShrinkLength()
      requires HEADER <= |body| && Length(body) > 0
      modifies this`body
      ensures body == SetWord(old(body), 4, U32(old(body), 4) % 2 + 2 * (Length(old(body)) - 1))
    {
      body := SetWord(body, 4, U32(body, 4) % 2 + 2 * (Length(body) - 1));
    }

    /** The part of `removeItems` that moves the words after `pos` down; none do when it is the last. */
    method CloseGap(tab: nat, n: nat, pos: nat)
      requires pos < n && tab + 4 * n <= |body|
      modifies this`body
      ensures body == Closed(old(body), tab, n, pos)
    {
      if pos + 1 < n {
        body := MemMove(body, tab + 4 * pos, tab + 4 * (pos + 1), 4 * (n - pos - 1));
      }
    }

    /** An emptied container starts over: its first item's data goes right after the header. */
    method ResetEmptyTable(ghost p: Parts)
      requires HasRoot() && Split(Root()) == Some(p)
      modifies this`body
      ensures |body| == |old(body)| && HasRoot() && Has(p) && Size(body) == Size(old(body)) && Split(Root()) == Some(p)
    {
      ghost var before := body;
      RootHeader(body);
      if Length(body) == 0 {
        HeaderWordSet(body, 8, HEADER);
        ResetIs(body, p);
        body := SetWord(body, 8, HEADER);
      } else {
        SplitLaid(body, Size(body), p);
      }
    }

    /** Assigning the three fields of the value word in `table()[pos]`. */
    method SetTableValue(pos: nat, v: Stored, off: nat, ghost p: Parts)
      returns (ghost w: word)
      requires Has(p) && pos < |p.table| && off < TWO_TO_THE_27
      modifies this`body
      ensures |body| == |old(body)| && Has(Parts(p.isObject, p.data, p.table[pos := w])) && IsWordFor(w, v, off)
      ensures HEADER <= |body| && Size(body) == Size(old(body))
    {
      hide U32, Words;
      var at := TableOffset(body) + 4 * pos;
      var x := PackWord(U32(body, at), TypeCode(v), IsCompressed(v), ValueToStore(v, off));
      assert IsWordFor(x, v, off);
      TableWordSet(body, Size(body), p.isObject, p.data, p.table, pos, x);
      BodyWordSet(body, at, x);
      SameHeader(SetWord(body, at, x), body);
      body := SetWord(body, at, x);
      w := x;
    }

    /** `if (valueSize) copyData(...)`, into the end of the data region. */
    method CopyValue(v: Stored, off: nat, ghost d: Bytes, ghost room: Bytes, ghost p: Parts) returns (ghost y: Bytes)
      requires Has(p) && off == HEADER + |d| && off < TWO_TO_THE_27 && off % 4 == 0
      requires Storable(v) && (v.Text? ==> |v.s| < 0x8000_0000)
      requires p.data == d + room && |room| == RequiredStorage(v)
      modifies this`body
      ensures |body| == |old(body)| && Has(Parts(p.isObject, d + y, p.table))
      ensures |y| == RequiredStorage(v) && CopiedTo(d + y, off, v)
      ensures HEADER <= |body| && Size(body) == Size(old(body))
    {
      hide *;
      ValueCopied(d, room, v);
      y := Write(room, 0, CopiedBytes(v));
      WriteData(off, |d|, CopiedBytes(v), RequiredStorage(v) != 0, p);
    }

    method WriteData(off: nat, ghost k: nat, x: Bytes, nonempty: bool, ghost p: Parts)
      requires Has(p) && off == HEADER + k && k + |x| <= |p.data| && (nonempty || x == [])
      modifies this`body
      ensures |body| == |old(body)| && Has(Parts(p.isObject, Write(p.data, k, x), p.table))
      ensures HEADER <= |body| && Size(body) == Size(old(body))
    {
      hide U32, Words;
      DataWritten(body, Size(body), p.isObject, p.data, p.table, k, x);
      if nonempty {
        body := Write(body, off, x);
      } else {
        assert Write(p.data, k, x) == p.data;
      }
    }

    /** The end of `JsonArray::insert` and `replace`: write the value word and copy the value's bytes. */
    method StoreItem(pos: nat, v: Stored, off: word, ghost d: Bytes, ghost room: Bytes, ghost p: Parts)
      returns (ghost w: word, ghost y: Bytes)
      requires Has(p) && pos < |p.table| && off == HEADER + |d| && off < TWO_TO_THE_27 && off % 4 == 0
      requires Storable(v) && (v.Text? ==> |v.s| < 0x8000_0000)
      requires p.data == d + room && |room| == RequiredStorage(v)
      modifies this`body
      ensures |body| == |old(body)| && Has(Parts(p.isObject, d + y, p.table[pos := w]))
      ensures |y| == RequiredStorage(v) && CopiedTo(d + y, off, v) && IsWordFor(w, v, off)
      ensures HEADER <= |body| && Size(body) == Size(old(body))
    {
      hide *;
      w := SetTableValue(pos, v, off, p);
      y := CopyValue(v, off, d, room, Parts(p.isObject, p.data, p.table[pos := w]));
    }

    /** What `JsonArray::insert` does once the array has its buffer to itself. */
    method ArrayInsert(i: nat, v: Stored, ghost vs: seq<Json>) returns (stored: bool)
      requires RootAs(false) == Some(Arr(vs)) && i <= |vs|
      requires Storable(v) && (v.Text? ==> |v.s| < 0x8000_0000)
      requires Size(body) + RequiredStorage(v) + 4 <= |body|
      modifies this`body
      ensures |body| == |old(body)|
      ensures stored == (Size(old(body)) + RequiredStorage(v) < MAX_SIZE)
      ensures RootAs(false) == Some(Arr(if stored then Inserted(vs, i, Meaning(v)) else vs))
      ensures IsTagged(old(IsObject(body)))
      ensures HEADER <= |body| && Size(body) == Size(old(body)) + if stored then RequiredStorage(v) + 4 else 0
    {
      hide *;
      ArrayRoot(vs);
      ghost var p := Split(Root()).value;
      RequiredIsAligned(v);
      ResetEmptyTable(p);
      var off := ReserveSpace(RequiredStorage(v), i, false, p);
      if off == 0 {
        RootIs(p);
        return false;
      }
      ghost var room := body[off..off + RequiredStorage(v)];
      ghost var q := Parts(p.isObject, p.data + room, Inserted<word>(p.table, i, off));
      ghost var w, y := StoreItem(i, v, off, p.data, room, q);
      ghost var t := Inserted<word>(p.table, i, w);
      assert Inserted<word>(p.table, i, off)[i := w] == t;
      ArrayInsertion(p.data, y, p.table, vs, i, v, w);
      RootIs(Parts(p.isObject, p.data + y, t));
      stored := true;
    }

    /** What `JsonArray::replace` does up to the compaction check. */
    method ArrayReplace(i: nat, v: Stored, ghost vs: seq<Json>) returns (stored: bool)
      requires RootAs(false) == Some(Arr(vs)) && i < |vs|
      requires Storable(v) && (v.Text? ==> |v.s| < 0x8000_0000)
      requires Size(body) + RequiredStorage(v) <= |body|
      modifies this`body
      ensures |body| == |old(body)|
      ensures stored == (Size(old(body)) + RequiredStorage(v) < MAX_SIZE)
      ensures RootAs(false) == Some(Arr(if stored then vs[i := Meaning(v)] else vs))
      ensures IsTagged(old(IsObject(body)))
      ensures HEADER <= |body| && Size(body) == Size(old(body)) + if stored then RequiredStorage(v) else 0
    {
      hide *;
      ArrayRoot(vs);
      ghost var p := Split(Root()).value;
      RequiredIsAligned(v);
      ResetEmptyTable(p);
      var off := ReserveSpace(RequiredStorage(v), i, true, p);
      if off == 0 {
        RootIs(p);
        return false;
      }
      ghost var room := body[off..off + RequiredStorage(v)];
      ghost var q := Parts(p.isObject, p.data + room, p.table[i := off]);
      ghost var w, y := StoreItem(i, v, off, p.data, room, q);
      assert p.table[i := off][i := w] == p.table[i := w];
      ArrayReplacement(p.data, y, p.table, vs, i, v, w);
      RootIs(Parts(p.isObject, p.data + y, p.table[i := w]));
      stored := true;
    }

    /**
      The same for the array at `base`. Inside another container there is no room to grow,
      so the value needs no storage then.
     */
    method ArrayReplaceAt(base: nat, i: nat, v: Stored, ghost vs: seq<Json>) returns (stored: bool)
      requires ContentsAt(body, base, false) == Some(Arr(vs)) && i < |vs|
      requires Storable(v) && (v.Text? ==> |v.s| < 0x8000_0000)
      requires U32(body, base) + RequiredStorage(v) <= |body| && (base > 0 ==> RequiredStorage(v) == 0)
      modifies this`body
      ensures HasBlockAt(old(body), base) && HasBlockAt(body, base) && |body| == |old(body)|
      ensures stored == (U32(old(body), base) + RequiredStorage(v) < MAX_SIZE)
      ensures ContentsAt(body, base, false) == Some(Arr(if stored then vs[i := Meaning(v)] else vs))
      ensures U32(body, base) == U32(old(body), base) + if stored then RequiredStorage(v) else 0
      ensures IsObject(BlockAt(body, base)) == IsObject(BlockAt(old(body), base))
      ensures base > 0 ==> body == Write(old(body), base, BlockAt(body, base))
    {
      hide Contents, U32, Write, RequiredStorage, Meaning, Storable;
      BlockHeader(body, base, false);
      if base == 0 {
        RootIsBlock();
        stored := ArrayReplace(i, v, vs);
        RootContents(false);
      } else {
        ghost var b := BlockAt(body, base);
        var inner := new Data.Raw(body[base..base + U32(body, base)]);
        inner.JustRoot(b);
        stored := inner.ArrayReplace(i, v, vs);
        inner.JustRoot(inner.body);
        BlockWritten(body, base, inner.body);
        body := Write(body, base, inner.body);
      }
    }

    lemma RootContents(isObject: bool)
      requires RootAs(isObject).Some?
      ensures HasBlockAt(body, 0) && BlockAt(body, 0) == Root() && ContentsAt(body, 0, isObject) == RootAs(isObject)
      ensures IsTagged(true) <==> IsObject(Root())
    {
      RootHeader(body);
    }

    lemma ObjectRoot(ms: seq<Member>)
      requires RootAs(true) == Some(Obj(ms))
      ensures HasRoot() && Split(Root()).Some? && Contents(Root(), true) == Some(Obj(ms))
      ensures var p := Split(Root()).value;
              && IsTagged(p.isObject) && |p.table| == |ms| && (p.table == [] ==> p.data == [])
              && ObjectDoc(p.data, p.table) == Some(Obj(ms)) && Ascending(Keys(ms))
    {
      ObjectParts(Root(), ms);
      RootHeader(body);
    }

    /** Writing an entry: its value word, its key, and the value's bytes. */
    method StoreEntry(off: word, key: Key, v: Stored, ghost d: Bytes, ghost room: Bytes, ghost p: Parts)
      returns (ghost w: word)
      requires Has(p) && off == HEADER + |d| && off + KeySize(key) < TWO_TO_THE_27
      requires Storable(v) && |key| < 0x8000_0000 && (v.Text? ==> |v.s| < 0x8000_0000)
      requires p.data == d + room && |room| == KeySize(key) + RequiredStorage(v)
      requires off + 4 <= |body|
      modifies this`body
      ensures |body| == |old(body)| && Has(Parts(p.isObject, d + EntryRoom(room, w, key, v), p.table))
      ensures IsWordFor(w, v, off + KeySize(key))
      ensures HEADER <= |body| && Size(body) == Size(old(body))
    {
      hide Has, CopiedBytes, RequiredStorage, Storable, U32, LE4, Write;
      var valueOffset := KeySize(key);
      var x := PackWord(U32(body, off), TypeCode(v), IsCompressed(v), ValueToStore(v, off + valueOffset));
      w := x;
      assert IsWordFor(w, v, off + valueOffset);
      ghost var r1 := Write(room, 0, LE4(w));
      WriteInRoom(d, room, 0, LE4(w));
      WriteData(off, |d|, LE4(x), true, p);
      ghost var r2 := Write(r1, 4, KeyBytes(key));
      WriteInRoom(d, r1, 4, KeyBytes(key));
      WriteData(off + 4, |d| + 4, KeyBytes(key), true, Parts(p.isObject, d + r1, p.table));
      WriteInRoom(d, r2, valueOffset, CopiedBytes(v));
      NothingToCopy(v);
      WriteData(off + valueOffset, |d| + valueOffset, CopiedBytes(v), RequiredStorage(v) != 0,
                Parts(p.isObject, d + r2, p.table));
    }

    /** What `JsonObject::insert` does, once the object has its buffer to itself, up to the compaction check. */
    method ObjectInsert(key: Key, v: Stored, ghost ms: seq<Member>) returns (stored: bool)
      requires RootAs(true) == Some(Obj(ms)) && |key| < 0x8000_0000
      requires Storable(v) && (v.Text? ==> |v.s| < 0x8000_0000)
      requires Size(body) + KeySize(key) + RequiredStorage(v) + 4 <= |body|
      modifies this`body, this`compactionCounter
      ensures |body| == |old(body)|
      ensures compactionCounter == old(compactionCounter) + if Present(Keys(ms), key) then 1 else 0
      ensures stored == (Size(old(body)) + KeySize(key) + RequiredStorage(v) < MAX_SIZE)
      ensures RootAs(true) == Some(Obj(if stored then Put(ms, key, Meaning(v)) else ms))
      ensures HEADER <= |body| && IsTagged(old(IsObject(body)))
      ensures Size(body) == Size(old(body)) +
                            if !stored then 0
                            else KeySize(key) + RequiredStorage(v) + if Present(Keys(ms), key) then 0 else 4
    {
      hide *;
      ObjectRoot(ms);
      ghost var p := Split(Root()).value;
      RequiredIsAligned(v);
      ResetEmptyTable(p);
      var requiredSize := KeySize(key) + RequiredStorage(v);
      RootIs(p);
      RootAsIs(true);
      var pos, keyExists := IndexOf(Root(), ms, key);
      PresentInRange(ms, key);
      if keyExists {
        compactionCounter := compactionCounter + 1;
      }
      var off := ReserveSpace(requiredSize, pos, keyExists, p);
      if off == 0 {
        RootIs(p);
        return false;
      }
      ghost var room := body[off..off + requiredSize];
      ghost var t := if keyExists then p.table[pos := off] else Inserted<word>(p.table, pos, off);
      ghost var w := StoreEntry(off, key, v, p.data, room, Parts(p.isObject, p.data + room, t));
      EntryStored(p.data, room, p.table, ms, key, v, w, off);
      RootIs(Parts(p.isObject, p.data + EntryRoom(room, w, key, v), t));
      stored := true;
    }

    lemma RootParts(p: Parts)
      requires HasRoot() && Split(Root()) == Some(p) && p.table != []
      ensures Has(p) && TableOffset(body) == HEADER + |p.data|
    {
      RootHeader(body);
      SplitLaid(body, Size(body), p);
    }

    lemma EmptiedRoot(p: Parts)
      requires Has(p) && p.table == []
      ensures RootAs(true) == Some(Obj([])) && RootAs(false) == Some(Arr([]))
    {
      LaidSplit(body, Size(body), p.isObject, p.data, p.table);
      EmptyDoc(Root(), p.isObject, true);
      EmptyDoc(Root(), p.isObject, false);
    }

    /** The removal of a table word leaves payloads where they fit. */
    lemma StillFits(p: Parts, pos: nat)
      requires Fits(p) && pos < |p.table| && Has(Parts(p.isObject, p.data, Removed(p.table, pos)))
      ensures RootFits()
    {
      hide ObjectFits, ArrayFits;
      var q := Parts(p.isObject, p.data, Removed(p.table, pos));
      RemovedFits(p, pos);
      LaidSplit(body, Size(body), q.isObject, q.data, q.table);
      if q.table == [] {
        NothingInUse(Parts(q.isObject, [], []));
      }
    }

    /** No offset is cut in a document that edits have kept below the size limit. */
    lemma SmallRootFits()
      requires RootDoc().Some? && Size(body) <= MAX_SIZE + 4
      ensures RootFits()
    {
      hide Doc, U32, Fits, DocOf, Readable, ObjectDoc, ArrayDoc;
      RootSplit();
      RootPartsAre(Split(Root()).value);
      if Split(Root()).value.table == [] {
        NothingInUse(Split(Root()).value);
      }
      SmallFits(Split(Root()).value);
    }

    /** What `JsonArray::removeAt` does to the root, up to the compaction check. */
    method ArrayRemove(i: nat, ghost vs: seq<Json>)
      requires RootAs(false) == Some(Arr(vs)) && i < |vs| && Size(body) < 0x8000_0000
      modifies this`body, this`compactionCounter
      ensures |body| == |old(body)| && compactionCounter == old(compactionCounter) + 1
      ensures Size(body) == Size(old(body)) && TableOffset(body) == TableOffset(old(body))
      ensures RootAs(false) == Some(Arr(Removed(vs, i))) && IsTagged(old(IsObject(body)))
      ensures Length(old(body)) == |vs| && TableOffset(body) + 4 * |vs| <= |body|
      ensures body == WithoutWord(old(body), i) && (old(RootFits()) ==> RootFits())
    {
      hide *;
      ArrayRoot(vs);
      ghost var p := Split(Root()).value;
      RootParts(p);
      RootFitsIs(p);
      RemoveItem(i, p);
      if Fits(p) {
        StillFits(p, i);
      }
      ghost var q := Parts(p.isObject, p.data, Removed(p.table, i));
      ArrayRemoved(p.data, p.table, i);
      if |vs| == 1 {
        EmptiedRoot(q);
      } else {
        RootIs(q);
      }
      RootTag(q);
      compactionCounter := compactionCounter + 1;
    }

    /** What `JsonObject::remove` does to the root with a key it found, up to the compaction check. */
    method ObjectRemove(pos: nat, ghost key: Key, ghost ms: seq<Member>)
      requires RootAs(true) == Some(Obj(ms)) && Size(body) < 0x8000_0000
      requires Present(Keys(ms), key) && pos == Rank(Keys(ms), key)
      modifies this`body, this`compactionCounter
      ensures |body| == |old(body)| && compactionCounter == old(compactionCounter) + 1
      ensures Size(body) == Size(old(body)) && TableOffset(body) == TableOffset(old(body))
      ensures RootAs(true) == Some(Obj(Without(ms, key))) && IsTagged(old(IsObject(body)))
      ensures Length(old(body)) == |ms| && pos < |ms| && TableOffset(body) + 4 * |ms| <= |body|
      ensures body == WithoutWord(old(body), pos) && (old(RootFits()) ==> RootFits())
    {
      hide *;
      ObjectRoot(ms);
      PresentInRange(ms, key);
      ghost var p := Split(Root()).value;
      RootParts(p);
      RootFitsIs(p);
      RemoveItem(pos, p);
      if Fits(p) {
        StillFits(p, pos);
      }
      ghost var q := Parts(p.isObject, p.data, Removed(p.table, pos));
      ObjectWithout(p.data, p.table, ms, key);
      if |ms| == 1 {
        EmptiedRoot(q);
        OneWithout(ms, key);
      } else {
        RootIs(q);
      }
      RootTag(q);
      compactionCounter := compactionCounter + 1;
    }

    lemma RootIsBlock()
      requires HasBlockAt(body, 0)
      ensures HasRoot() && BlockAt(body, 0) == Root() && (IsTagged(true) <==> IsObject(Root()))
      ensures RootFits() <==> BlockFits(Root())
    {
      hide BlockFits;
      RootHeader(body);
    }

    lemma JustRoot(b: Bytes)
      requires body == b && HasRoot() && Size(body) == |body|
      ensures Root() == b && HasBlockAt(body, 0) && BlockAt(body, 0) == b
    {}

    /** What `JsonArray::removeAt` does to the array at `base`, up to the compaction check. */
    method ArrayRemoveAt(base: nat, i: nat, ghost vs: seq<Json>)
      requires ContentsAt(body, base, false) == Some(Arr(vs)) && i < |vs| && U32(body, base) < 0x8000_0000
      modifies this`body, this`compactionCounter
      ensures HasBlockAt(old(body), base) && HasSlot(BlockAt(old(body), base), i)
      ensures body == WithoutItem(old(body), base, i) && compactionCounter == old(compactionCounter) + 1
      ensures ContentsAt(body, base, false) == Some(Arr(Removed(vs, i)))
      ensures HasBlockAt(body, base) && U32(body, base) == U32(old(body), base)
      ensures IsObject(BlockAt(body, base)) == IsObject(BlockAt(old(body), base))
      ensures BlockFits(BlockAt(old(body), base)) ==> BlockFits(BlockAt(body, base))
    {
      hide Contents, U32, WithoutWord, Write, BlockFits;
      BlockHeader(body, base, false);
      ghost var b := BlockAt(body, base);
      var inner := new Data.Raw(body[base..base + U32(body, base)]);
      inner.JustRoot(b);
      inner.ArrayRemove(i, vs);
      inner.JustRoot(inner.body);
      BlockWritten(body, base, inner.body);
      body := Write(body, base, inner.body);
      compactionCounter := compactionCounter + 1;
    }

    /** What `JsonObject::remove` does to the object at `base` with a key it found, up to the compaction check. */
    method ObjectRemoveAt(base: nat, pos: nat, ghost key: Key, ghost ms: seq<Member>)
      requires ContentsAt(body, base, true) == Some(Obj(ms)) && U32(body, base) < 0x8000_0000
      requires Present(Keys(ms), key) && pos == Rank(Keys(ms), key)
      modifies this`body, this`compactionCounter
      ensures HasBlockAt(old(body), base) && HasSlot(BlockAt(old(body), base), pos)
      ensures body == WithoutItem(old(body), base, pos) && compactionCounter == old(compactionCounter) + 1
      ensures ContentsAt(body, base, true) == Some(Obj(Without(ms, key)))
      ensures HasBlockAt(body, base) && U32(body, base) == U32(old(body), base)
      ensures IsObject(BlockAt(body, base)) == IsObject(BlockAt(old(body), base))
      ensures BlockFits(BlockAt(old(body), base)) ==> BlockFits(BlockAt(body, base))
    {
      hide Contents, U32, WithoutWord, Write, BlockFits, Present, Rank, Without;
      BlockHeader(body, base, true);
      ghost var b := BlockAt(body, base);
      var inner := new Data.Raw(body[base..base + U32(body, base)]);
      inner.JustRoot(b);
      inner.ObjectRemove(pos, key, ms);
      inner.JustRoot(inner.body);
      BlockWritten(body, base, inner.body);
      body := Write(body, base, inner.body);
      compactionCounter := compactionCounter + 1;
    }

    /** The first loop of `compact`: storage in use by the items of an array. */
    method ArrayReserve(data: Bytes, tab: nat, n: nat, ghost t: seq<word>) returns (reserve: nat)
      requires tab + 4 * n <= |body| && Words(body, tab, n) == t
      ensures reserve == Sum(ValueSizes(data, t))
    {
      hide UsedStorage, U32;
      reserve := 0;
      for i := 0 to n
        invariant reserve == Sum(ValueSizes(data, t)[..i])
      {
        assert U32(body, tab + 4 * i) == t[i];
        NextSum(ValueSizes(data, t), i);
        reserve := reserve + UsedStorage(data, U32(body, tab + 4 * i));
      }
      assert ValueSizes(data, t)[..n] == ValueSizes(data, t);
    }

    method ObjectReserve(data: Bytes, tab: nat, n: nat, ghost t: seq<word>) returns (reserve: nat)
      requires tab + 4 * n <= |body| && Words(body, tab, n) == t
      ensures reserve == Sum(EntrySizes(data, t))
    {
      hide EntryStorage, U32;
      reserve := 0;
      for i := 0 to n
        invariant reserve == Sum(EntrySizes(data, t)[..i])
      {
        assert U32(body, tab + 4 * i) == t[i];
        NextSum(EntrySizes(data, t), i);
        reserve := reserve + EntryStorage(data, U32(body, tab + 4 * i));
      }
      assert EntrySizes(data, t)[..n] == EntrySizes(data, t);
    }

    /** The second loop of `compact`, for an array: copy every payload behind the one before it. */
    method CopyItems(nb: Bytes, data: Bytes, tab: nat, n: nat, newTab: nat, ghost t: seq<word>) returns (r: Bytes)
      requires tab + 4 * n <= |body| && Words(body, tab, n) == t && ItemsReadable(data, t)
      requires Filling(nb, false, n, newTab, [], []) && newTab == ItemOffset(data, t, n)
      ensures |r| == |nb| && Filling(r, false, n, newTab, ItemsCopy(data, t, n), ItemWords(data, t, n))
    {
      hide UsedStorage, U32, SetWord, PayloadOf, ValueAt, Filling, MovedWord, Write, ItemOffset;
      r := nb;
      var offset := HEADER;
      NothingCopied(data, t);
      for i := 0 to n
        invariant |r| == |nb| && Filling(r, false, n, newTab, ItemsCopy(data, t, i), ItemWords(data, t, i))
        invariant offset == ItemOffset(data, t, i)
      {
        var v := U32(body, tab + 4 * i);
        assert v == t[i];
        ItemBelowEnd(data, t, i);
        NextItem(data, t, i);
        r, offset := CopyItem(r, data, i, n, newTab, v, offset, ItemsCopy(data, t, i), ItemWords(data, t, i));
        assert ItemWords(data, t, i + 1) ==
               ItemWords(data, t, i) + [MovedWord(data, t[i], ItemOffset(data, t, i))];
      }
    }

    /** One turn of that loop. */
    static method CopyItem(b: Bytes, data: Bytes, i: nat, n: nat, newTab: nat, v: word, offset: nat,
                           ghost e: Bytes, ghost u: seq<word>)
      returns (r: Bytes, next: nat)
      requires ValueAt(data, v).Some? && Filling(b, false, n, newTab, e, u) && |u| == i < n
      requires offset == HEADER + |e| && offset + UsedStorage(data, v) <= newTab
      ensures |r| == |b| && next == offset + UsedStorage(data, v)
      ensures Filling(r, false, n, newTab, e + PayloadOf(data, v), u + [MovedWord(data, v, offset)])
    {
      hide UsedStorage, U32, SetWord, PayloadOf, ValueAt, Filling, Write;
      FillingRoom(b, false, n, newTab, e, u);
      FillTable(b, false, n, newTab, e, u, v);
      r := SetWord(b, newTab + 4 * i, v);
      next := offset;
      var dataSize := UsedStorage(data, v);
      if dataSize != 0 {
        FillData(r, false, n, newTab, e, u, PayloadOf(data, v));
        r := Write(r, offset, PayloadOf(data, v));
        FillTable(r, false, n, newTab, e + PayloadOf(data, v), u, SetValueField(v, offset));
        r := SetWord(r, newTab + 4 * i, SetValueField(v, offset));
        next := offset + dataSize;
      } else {
        assert e + PayloadOf(data, v) == e;
      }
    }

    /** The second loop of `compact`, for an object: copy every entry, and its payload right behind it. */
    method CopyEntries(nb: Bytes, data: Bytes, tab: nat, n: nat, newTab: nat, ghost t: seq<word>) returns (r: Bytes)
      requires tab + 4 * n <= |body| && Words(body, tab, n) == t && EntriesReadable(data, t)
      requires Filling(nb, true, n, newTab, [], []) && newTab == EntryOffset(data, t, n) < 0x8000_0000
      ensures |r| == |nb| && Filling(r, true, n, newTab, EntriesCopy(data, t, n), EntryWords(data, t, n))
    {
      hide EntryStorage, EntrySize, U32, SetWord, EntryAt, Filling, EntryCopy, Write, EntryOffset;
      r := nb;
      var offset := HEADER;
      NothingCopied(data, t);
      for i := 0 to n
        invariant |r| == |nb| && Filling(r, true, n, newTab, EntriesCopy(data, t, i), EntryWords(data, t, i))
        invariant offset == EntryOffset(data, t, i)
      {
        var en := U32(body, tab + 4 * i);
        assert en == t[i];
        EntryBelowEnd(data, t, i);
        NextEntry(data, t, i);
        r, offset := CopyEntry(r, data, i, n, newTab, en, offset, EntriesCopy(data, t, i), EntryWords(data, t, i));
        assert EntryWords(data, t, i + 1) == EntryWords(data, t, i) + [EntryOffset(data, t, i) as word];
      }
    }

    /** One turn of that loop. */
    static method CopyEntry(b: Bytes, data: Bytes, i: nat, n: nat, newTab: nat, en: word, offset: nat,
                            ghost e: Bytes, ghost u: seq<word>)
      returns (r: Bytes, next: nat)
      requires EntryAt(data, en).Some? && Filling(b, true, n, newTab, e, u) && |u| == i < n
      requires offset == HEADER + |e| && offset + EntryStorage(data, en) <= newTab < 0x8000_0000
      ensures |r| == |b| && next == offset + EntryStorage(data, en)
      ensures Filling(r, true, n, newTab, e + EntryCopy(data, en, offset), u + [offset as word])
    {
      hide EntryStorage, EntrySize, U32, SetWord, EntryAt, ValueAt, UsedStorage, Filling, EntryCopy, Write, PayloadOf;
      ghost var u' := u + [offset as word];
      FillingRoom(b, true, n, newTab, e, u);
      EntryParts(data, en);
      EntryAssembled(data, en, e);
      FillTable(b, true, n, newTab, e, u, offset);
      r := SetWord(b, newTab + 4 * i, offset);
      var s := EntrySize(data, en);
      var bytes := data[en - HEADER..en - HEADER + s];
      FillData(r, true, n, newTab, e, u', bytes);
      r := Write(r, offset, bytes);
      next := offset + s;
      var v := U32(data, en - HEADER);
      var dataSize := UsedStorage(data, v);
      if dataSize != 0 {
        ghost var f := e + bytes + PayloadOf(data, v);
        FillData(r, true, n, newTab, e + bytes, u', PayloadOf(data, v));
        r := Write(r, next, PayloadOf(data, v));
        FillWordThere(r, offset, |e|, f, v, n, newTab, u', MovedWord(data, v, next));
        r := SetWord(r, offset, SetValueField(U32(r, offset), next));
        next := next + dataSize;
      } else {
        assert e + bytes + PayloadOf(data, v) == e + bytes;
      }
    }

    /** The buffer holds a container with these parts, one behind the other, and nothing else. */
    ghost predicate HoldsJust(p: Parts)
      reads this`body
    {
      |body| >= HEADER && Size(body) == |body| == HEADER + |p.data| + 4 * |p.table| && Split(body) == Some(p)
    }

    /**
      Nothing but header, the payloads in table order without a gap, and the table: every
      byte of the data region is storage in use, and nothing follows the table.
     */
    ghost predicate IsTight()
      reads this`body
    {
      Split(body).Some? && HoldsJust(Split(body).value) && Packed(Split(body).value)
    }

    /** Compaction moves no payload of the root past what 27 bits can refer to. */
    ghost predicate RootFits()
      reads this`body
    {
      HasRoot() && BlockFits(Root())
    }

    lemma RootFitsIs(p: Parts)
      requires HasRoot() && Split(Root()) == Some(p)
      ensures RootFits() <==> Fits(p)
    {
      hide Fits;
    }

    /**
      `Data::compact`. The buffer ends up with copies of what is in use and nothing else.
      As long as no offset is cut to 27 bits, the root means the same afterwards.
     */
    method Compact()
      requires compactionCounter != 0 ==> RootDoc().Some? && Size(body) < 0x8000_0000
      modifies this`body, this`compactionCounter
      ensures compactionCounter == 0
      ensures old(compactionCounter) == 0 ==> body == old(body)
      ensures old(compactionCounter) != 0 ==>
                && old(DocOf(Split(Root()).value)).Some?
                && HoldsJust(old(Compacted(Split(Root()).value)))
      ensures old(compactionCounter) != 0 && old(RootFits()) ==> RootDoc() == old(RootDoc()) && IsTight()
      ensures old(compactionCounter) != 0 ==>
                HEADER <= |body| && Size(body) <= Size(old(body)) && IsTagged(old(IsObject(body)))
    {
      hide Doc, U32, Split, Compacted, Fits, Packed, Readable, DocOf;
      if compactionCounter == 0 {
        return;
      }
      RootSplit();
      ghost var p := Split(Root()).value;
      if IsObject(body) {
        CompactObject(p);
      } else {
        CompactArray(p);
      }
      compactionCounter := 0;
      RootOfJust(Compacted(p));
      if Fits(p) {
        CompactedFits(p);
      }
    }

    /** The parts of the root of a document. */
    lemma RootSplit()
      requires RootDoc().Some?
      ensures HasRoot() && Split(Root()).Some?
      ensures var p := Split(Root()).value;
              p.isObject == IsObject(body) && DocOf(p) == RootDoc() && Readable(p) && |p.data| < Size(body)
    {
      hide U32;
      RootHeader(body);
      DocReadable(Split(Root()).value);
    }

    lemma RootOfJust(p: Parts)
      requires HoldsJust(p)
      ensures HasRoot() && RootDoc() == DocOf(p) && IsTagged(p.isObject)
    {
      hide U32;
      assert body[..|body|] == body;
    }

    /** The data region of the root, where payloads and entries are read from. */
    function RootData(): (d: Bytes)
      requires HasRoot() && TableOffset(body) <= |body|
      reads this`body
    {
      if Length(body) == 0 then [] else if TableOffset(body) < HEADER then [] else body[HEADER..TableOffset(body)]
    }

    lemma RootPartsAre(p: Parts)
      requires HasRoot() && Split(Root()) == Some(p)
      ensures HEADER <= Size(body) <= |body| && TableOffset(body) + 4 * Length(body) <= Size(body)
      ensures Length(body) == |p.table|
      ensures RootData() == p.data && Words(body, TableOffset(body), Length(body)) == p.table
      ensures HEADER + |p.data| + 4 * |p.table| <= Size(body)
    {
      hide U32;
      RootHeader(body);
      WordsOfSlice(Root(), TableOffset(body), body, TableOffset(body), Length(body));
      if Length(body) > 0 {
        SliceOfSlice(body, 0, Size(body), HEADER, TableOffset(body));
      }
    }

    method CompactArray(ghost p: Parts)
      requires HasRoot() && Split(Root()) == Some(p) && !p.isObject && DocOf(p).Some? && Readable(p)
      requires Size(body) < 0x8000_0000
      modifies this`body
      ensures HoldsJust(Compacted(p)) && Size(body) <= Size(old(body))
    {
      hide *;
      RootPartsAre(p);
      ArrayInUse(p);
      var tab, n, data := TableOffset(body), Length(body), RootData();
      var reserve := ArrayReserve(data, tab, n, p.table);
      var newTab := HEADER + reserve;
      var junk := Junk(reserve + 4 * n);
      var nb := Header(newTab + 4 * n, false, n, newTab) + junk;
      StartFilling(false, n, reserve, junk);
      nb := CopyItems(nb, data, tab, n, newTab, p.table);
      body := nb;
      JustFilled(Compacted(p), newTab);
    }

    method CompactObject(ghost p: Parts)
      requires HasRoot() && Split(Root()) == Some(p) && p.isObject && DocOf(p).Some? && Readable(p)
      requires Size(body) < 0x8000_0000
      modifies this`body
      ensures HoldsJust(Compacted(p)) && Size(body) <= Size(old(body))
    {
      hide *;
      RootPartsAre(p);
      ObjectInUse(p);
      var tab, n, data := TableOffset(body), Length(body), RootData();
      var reserve := ObjectReserve(data, tab, n, p.table);
      var newTab := HEADER + reserve;
      var junk := Junk(reserve + 4 * n);
      var nb := Header(newTab + 4 * n, true, n, newTab) + junk;
      StartFilling(true, n, reserve, junk);
      nb := CopyEntries(nb, data, tab, n, newTab, p.table);
      body := nb;
      JustFilled(Compacted(p), newTab);
    }

    lemma JustFilled(p: Parts, newTab: nat)
      requires Filling(body, p.isObject, |p.table|, newTab, p.data, p.table)
      requires HEADER + |p.data| == newTab && |p.data| % 4 == 0 && (p.table == [] ==> p.data == [])
      ensures HoldsJust(p) && |body| >= HEADER && Size(body) == |body|
    {
      hide U32, Words;
      Filled(body, p.isObject, |p.table|, newTab, p.data, p.table);
      assert body[..|body|] == body;
      LaidSplit(body, |body|, p.isObject, p.data, p.table);
    }
  }

  lemma NothingInUse(p: Parts)
    requires p.table == []
    ensures Fits(p)
  {
    hide EntryStorage, UsedStorage;
  }

  /** What is in use of an array, and what it will be copied to. */
  lemma ArrayInUse(p: Parts)
    requires !p.isObject && DocOf(p).Some? && Readable(p)
    ensures var n := |p.table|;
            && ItemsReadable(p.data, p.table)
            && ItemOffset(p.data, p.table, n) == HEADER + Sum(ValueSizes(p.data, p.table))
            && Compacted(p) == Parts(false, ItemsCopy(p.data, p.table, n), ItemWords(p.data, p.table, n))
            && |Compacted(p).data| == Sum(ValueSizes(p.data, p.table)) <= |p.data|
            && |Compacted(p).data| % 4 == 0 && (n == 0 ==> Compacted(p).data == [])
  {
    hide ValueAt, UsedStorage;
    ArrayReserveFits(p.data, p.table, DocOf(p).value.items);
  }

  lemma ObjectInUse(p: Parts)
    requires p.isObject && DocOf(p).Some? && Readable(p)
    ensures var n := |p.table|;
            && EntriesReadable(p.data, p.table)
            && EntryOffset(p.data, p.table, n) == HEADER + Sum(EntrySizes(p.data, p.table))
            && Compacted(p) == Parts(true, EntriesCopy(p.data, p.table, n), EntryWords(p.data, p.table, n))
            && |Compacted(p).data| == Sum(EntrySizes(p.data, p.table)) <= |p.data|
            && |Compacted(p).data| % 4 == 0 && (n == 0 ==> Compacted(p).data == [])
  {
    hide EntryAt, EntryStorage;
    ObjectReserveFits(p.data, p.table, DocOf(p).value.members);
  }

  lemma NothingCopied(d: Bytes, t: seq<word>)
    ensures ItemsReadable(d, t) ==> ItemsCopy(d, t, 0) == []
    ensures EntriesReadable(d, t) ==> EntriesCopy(d, t, 0) == []
    ensures ItemWords(d, t, 0) == [] == EntryWords(d, t, 0)
    ensures ItemOffset(d, t, 0) == HEADER == EntryOffset(d, t, 0)
  {}

  /** The entry's value word is found in the new block, and can be overwritten there. */
  lemma FillWordThere(b: Bytes, offset: nat, k: nat, f: Bytes, v: word, n: nat, tab: nat, u: seq<word>, w: word)
    requires Filling(b, true, n, tab, f, u) && offset == HEADER + k && k + 4 <= |f| && U32(f, k) == v
    ensures |b| == tab + 4 * n && HEADER + |f| <= tab && U32(b, offset) == v
    ensures Filling(SetWord(b, offset, w), true, n, tab, Write(f, k, LE4(w)), u)
  {
    hide U32, Words, SetWord, Write;
    SliceOfSlice(b, HEADER, HEADER + |f|, k, k + 4);
    U32Moved(b, offset, f, k);
    FillWord(b, true, n, tab, f, u, k, w);
  }

  lemma FillingRoom(b: Bytes, isObject: bool, n: nat, tab: nat, e: Bytes, u: seq<word>)
    requires Filling(b, isObject, n, tab, e, u)
    ensures |b| == tab + 4 * n && HEADER + |e| <= tab
  {}

  lemma OneWithout(ms: seq<Member>, key: Key)
    requires |ms| == 1 && Present(Keys(ms), key)
    ensures Without(ms, key) == []
  {}

  lemma PresentInRange(ms: seq<Member>, key: Key)
    ensures Rank(Keys(ms), key) <= |ms|
    ensures Present(Keys(ms), key) ==> Rank(Keys(ms), key) < |ms|
  {}

  lemma NothingToCopy(v: Stored)
    requires v.Text? ==> |v.s| < 0x8000_0000
    ensures RequiredStorage(v) == 0 ==> CopiedBytes(v) == []
  {}

  lemma LengthAfterMove(s: Bytes, c: Bytes, tab: nat, n: nat, pos: nat)
    requires pos < n && HEADER <= tab && tab + 4 * n <= |s| && c == Closed(s, tab, n, pos)
    ensures Length(c) == Length(s)
  {
    hide U32, Words;
    ClosedIs(s, tab, n, pos);
    SubSlice(c, s, 0, tab, 0, HEADER);
    SameHeader(c, s);
  }

  lemma RootHeader(s: Bytes)
    requires |s| >= HEADER && HEADER <= Size(s) <= |s|
    ensures var b := s[..Size(s)];
            Size(b) == Size(s) && IsObject(b) == IsObject(s) && Length(b) == Length(s)
                && TableOffset(b) == TableOffset(s)
  {
    SameHeader(s, s[..Size(s)]);
  }

  lemma ResetIs(s: Bytes, p: Parts)
    requires |s| >= HEADER && HEADER <= Size(s) <= |s|
    requires Split(s[..Size(s)]) == Some(p) && Length(s) == 0
    ensures var r := SetWord(s, 8, HEADER);
            && Size(r) == Size(s)
            && Split(r[..Size(s)]) == Some(p)
            && Laid(r, Size(s), p.isObject, p.data, p.table)
  {
    RootHeader(s);
    HeaderWordSet(s, 8, HEADER);
    var r := SetWord(s, 8, HEADER);
    assert Words(r, HEADER, 0) == [];
    LaidSplit(r, Size(s), p.isObject, [], []);
  }
}
