/**
  A document that compaction breaks: `{"b":"x","a":"..."}` with 2^27 bytes in the second
  string. The parser accepts it, as every payload starts below 2^27 in the order of the
  text. In the order of the keys, the payload of `b` comes after that of `a`.
 */
module Overflow {
  import opened Bytes
  import opened Numbers
  import opened Json
  import opened Arena
  import opened Layout
  import opened Payloads
  import opened Compaction

  /** A length-prefixed string, padded. */
  function Padded(s: Bytes): (x: Bytes)
    requires |s| < 0x8000_0000
    ensures |x| == 4 + Align4(|s|)
  {
    LE4(|s|) + s + seq(Align4(|s|) - |s|, _ => 0)
  }

  function StringWord(off: nat): (w: word)
    requires off < TWO_TO_THE_27
  {
    T_STRING + 32 * off
  }

  /** A member with a string, as the parser lays it out behind `n` bytes of data. */
  function StringMember(n: nat, key: Key, s: Bytes): (x: Bytes)
    requires |key| < 0x8000_0000 && |s| < 0x8000_0000 && HEADER + n + 8 + Align4(|key|) < TWO_TO_THE_27
    ensures |x| == 12 + Align4(|key|) + Align4(|s|)
  {
    LE4(StringWord(HEADER + n + 8 + Align4(|key|))) + Padded(key) + Padded(s)
  }

  lemma PaddedIs(s: Bytes)
    requires |s| < 0x8000_0000
    ensures IsStringStorage(Padded(s), s)
  {
    hide U32;
    var x, z := Padded(s), seq<byte>(Align4(|s|) - |s|, _ => 0);
    assert x == LE4(|s|) + (s + z);
    assert x[0..4] == LE4(|s|)[0..4] && x[4..4 + |s|] == s;
    U32Moved(x, 0, LE4(|s|), 0);
    U32OfLE4(|s|);
  }

  lemma StringWordFields(off: nat)
    requires off < TWO_TO_THE_27
    ensures TypeField(StringWord(off)) == T_STRING && ValueField(StringWord(off)) == off
  {
    LowDigits(T_STRING, off);
  }

  lemma StringMemberIs(n: nat, key: Key, s: Bytes)
    requires |key| < 0x8000_0000 && |s| < 0x8000_0000 && HEADER + n + 8 + Align4(|key|) < TWO_TO_THE_27
    requires n % 4 == 0
    ensures IsEntry(n, StringMember(n, key, s), (key, Str(s)))
  {
    hide IsStringStorage, Padded, StringWord, IsPayload, IsEntry;
    PaddedIs(key);
    PaddedIs(s);
    var m, w := n + 4 + |Padded(key)|, StringWord(HEADER + n + 8 + Align4(|key|));
    StringWordFields(HEADER + n + 8 + Align4(|key|));
    StringPayload(m, Padded(s), s, w);
    EntryPieces(n, w, Padded(key), key, Padded(s), Str(s));
  }

  const A: Key := [97]
  const B: Key := [98]

  /** 2^27 times the letter a. */
  function Huge(): (s: Bytes)
    ensures |s| == TWO_TO_THE_27
    ensures forall i :: 0 <= i < |s| ==> s[i] == 97
  {
    seq(TWO_TO_THE_27, _ => 97)
  }

  function HugeParts(): Parts {
    Parts(true, StringMember(0, B, [120]) + StringMember(20, A, Huge()), [32, 12])
  }

  function HugeObject(): Json {
    Obj([(A, Str(Huge())), (B, Str([120]))])
  }

  lemma HugeEntries()
    ensures var d := HugeParts().data;
            && |d| == TWO_TO_THE_27 + 36
            && HoldsEntry(d, 12, (B, Str([120])), 20) && HoldsEntry(d, 32, (A, Str(Huge())), TWO_TO_THE_27 + 16)
  {
    hide EntryAt, EntryStorage, Huge, StringMember;
    var x, y := StringMember(0, B, [120]), StringMember(20, A, Huge());
    StringMemberIs(0, B, [120]);
    StringMemberIs(20, A, Huge());
    assert [] + x == x;
    assert HoldsEntry([] + x, 12, (B, Str([120])), |x|);
    assert HoldsEntry(x + y, 32, (A, Str(Huge())), |y|);
    EntryGrows(x, y, 12);
    EntryStorageGrows(x, y, 12);
  }

  lemma HugeSizes(d: Bytes, t: seq<word>)
    requires t == [32, 12] && EntryStorage(d, 32) == TWO_TO_THE_27 + 16 && EntryStorage(d, 12) == 20
    ensures EntrySizes(d, t) == [TWO_TO_THE_27 + 16, 20]
    ensures Sum(EntrySizes(d, t)) == TWO_TO_THE_27 + 36
    ensures EntryOffset(d, t, 0) == 12 && EntryOffset(d, t, 1) == TWO_TO_THE_27 + 28
  {
    hide EntryStorage;
    var s := EntrySizes(d, t);
    assert s == [TWO_TO_THE_27 + 16, 20];
    assert s[..1] == [TWO_TO_THE_27 + 16] && s[..2] == s;
    NextSum(s, 0);
    NextSum(s, 1);
  }

  lemma HugeKeys()
    ensures Ascending(Keys([(A, Str(Huge())), (B, Str([120]))]))
  {
    var ms := [(A, Str(Huge())), (B, Str([120]))];
    assert Keys(ms) == [A, B];
    LessAtDifference(A, B, 0);
  }

  /** It is a well-formed object. */
  lemma HugeIsRead()
    ensures DocOf(HugeParts()) == Some(HugeObject()) && Readable(HugeParts())
  {
    hide EntryAt, EntryStorage, EntrySizes, Huge, StringMember, Ascending, Keys;
    HugeEntries();
    HugeKeys();
    HugeSizes(HugeParts().data, HugeParts().table);
    ObjectDocIs(HugeParts().data, HugeParts().table, HugeObject().members);
  }

  lemma TextWord(d: Bytes, w: word, s: Bytes)
    requires ValueAt(d, w) == Some(Str(s))
    ensures TypeField(w) == T_STRING && UsedStorage(d, w) == 4 + Align4(|s|) == |PayloadOf(d, w)|
    ensures PayloadOf(d, w)[4..4 + |s|] == s
  {
    hide TypeField, ValueField, IntField, U32, Align4, Canonical;
    assert TypeField(w) == T_STRING;
    StringParts(d, w);
    var o, n := ValueField(w) - HEADER, |s|;
    SliceOfSlice(d, o, o + 4 + Align4(n), 4, 4 + n);
  }

  /** The parts of an entry for a string. */
  lemma TextEntry(d: Bytes, en: word, key: Key, s: Bytes)
    requires EntryAt(d, en) == Some((key, Str(s)))
    ensures HEADER <= en && en - HEADER + 4 <= |d| && ValueAt(d, U32(d, en - HEADER)) == Some(Str(s))
    ensures EntrySize(d, en) == 8 + Align4(|key|) && HasPayload(d, en)
  {
    hide ValueAt, TypeField, UsedStorage, EntryStorage, Align4, U32;
    EntryParts(d, en);
    TextWord(d, U32(d, en - HEADER), s);
  }

  /** Copied behind `e`, the string is found behind its entry and its length. */
  lemma TextCopied(d: Bytes, en: word, key: Key, s: Bytes, e: Bytes, i: nat)
    requires EntryAt(d, en) == Some((key, Str(s))) && i + 4 <= |s|
    ensures var f, o := e + EntryCopy(d, en, HEADER + |e|), |e| + 12 + Align4(|key|);
            o + |s| <= |f| && f[o + i..o + i + 4] == s[i..i + 4]
  {
    hide EntryAt, ValueAt, UsedStorage, PayloadOf, U32, EntryCopy, EntrySize, MovedWord, Align4, TypeField;
    TextEntry(d, en, key, s);
    CopyPieces(d, en, e);
    var w, n := U32(d, en - HEADER), |e| + EntrySize(d, en);
    TextWord(d, w, s);
    var f, x := e + EntryCopy(d, en, HEADER + |e|), PayloadOf(d, w);
    SliceOfSlice(f, n, n + |x|, 4, 4 + |s|);
    SliceOfSlice(f, n + 4, n + 4 + |s|, i, i + 4);
  }

  /** The string of `a` in the copy, 2^27 bytes long, starts right behind its entry. */
  lemma HugeText(d: Bytes, t: seq<word>)
    requires t == [32, 12] && EntriesReadable(d, t) && EntryAt(d, 32) == Some((A, Str(Huge())))
    ensures |EntriesCopy(d, t, 2)| >= 32 && U32(EntriesCopy(d, t, 2), 28) == 0x6161_6161
  {
    hide EntryAt, EntryCopy, Huge, U32, EntryStorage;
    var f, e := EntriesCopy(d, t, 1), EntriesCopy(d, t, 2);
    assert EntriesCopy(d, t, 0) == [] && EntryOffset(d, t, 0) == HEADER;
    var none: Bytes := [];
    assert f == none + EntryCopy(d, 32, HEADER + |none|);
    TextCopied(d, 32, A, Huge(), none, 12);
    assert f[28..32] == [97, 97, 97, 97];
    EntriesCopyGrows(d, t, 1, 2);
    U32Moved(e, 28, [97, 97, 97, 97], 0);
    FourLetters();
  }

  lemma FourLetters()
    ensures U32([97, 97, 97, 97], 0) == 0x6161_6161
  {}

  /** The entry of `b` in the copy refers to the middle of the other string. */
  lemma HugeWord(d: Bytes, t: seq<word>)
    requires t == [32, 12] && EntriesReadable(d, t) && EntryAt(d, 12) == Some((B, Str([120])))
    requires EntryOffset(d, t, 1) == TWO_TO_THE_27 + 28
    ensures EntryWords(d, t, 2)[1] == TWO_TO_THE_27 + 28 && EntryPayloadOffset(d, t, 1) == TWO_TO_THE_27 + 40
    ensures var e, o := EntriesCopy(d, t, 2), TWO_TO_THE_27 + 16;
            o + 4 <= |e| && TypeField(U32(e, o)) == T_STRING && ValueField(U32(e, o)) == 40
    ensures HasPayload(d, 12)
  {
    hide EntryAt, ValueAt, U32, EntryStorage, EntrySize, EntriesCopy, SetValueField, EntryOffset, TypeField, ValueField,
        UsedStorage;
    TextEntry(d, 12, B, [120]);
    EntryWordCopied(d, t, 1);
    var w := U32(d, 0);
    TextWord(d, w, [120]);
    ValueFieldSet(w, TWO_TO_THE_27 + 40);
  }

  /** A word that refers to letters as if they were a length breaks the entry. */
  lemma BrokenEntry(e: Bytes, en: word)
    requires HEADER <= en && en - HEADER + 4 <= |e| < 0x4000_0000
    requires TypeField(U32(e, en - HEADER)) == T_STRING && ValueField(U32(e, en - HEADER)) == 40
    requires |e| >= 32 && U32(e, 28) == 0x6161_6161
    ensures EntryAt(e, en).None?
  {
    hide U32, TypeField, ValueField;
    assert StringBytes(e, 40).None?;
  }

  /**
    The document does not survive compaction: one offset does not fit, the word that was
    to hold it refers elsewhere, and what is left is not an object at all.
   */
  lemma CompactionBreaksHugeObject()
    ensures DocOf(HugeParts()) == Some(HugeObject()) && Readable(HugeParts()) && !Fits(HugeParts())
    ensures !RefersToCopy(HugeParts(), 1)
    ensures DocOf(Compacted(HugeParts())).None?
  {
    hide EntryAt, EntryStorage, Huge, StringMember, U32, EntriesCopy, EntryWords, EntrySizes, EntryPayloadOffset,
        HasPayload, HugeObject;
    HugeIsRead();
    HugeEntries();
    var d, t := HugeParts().data, HugeParts().table;
    HugeSizes(d, t);
    HugeText(d, t);
    HugeWord(d, t);
    CopyIsReferred(HugeParts(), 1);
    BrokenEntry(EntriesCopy(d, t, 2), EntryWords(d, t, 2)[1]);
  }
}
