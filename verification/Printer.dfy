/**
  JSON text for documents, compact or indented: what it is as a function of the document,
  and how the printer produces it from the binary layout.
 */
module Printer {
  import opened Bytes
  import opened Numbers
  import opened Json
  import opened Decimals
  import opened Arena
  import opened Search
  import opened Reader
  import opened Store

  // ---------------------------------------------------------------------
  // The text of a value
  // ---------------------------------------------------------------------

  function HexDig(u: nat): (c: byte)
    requires u < 16
    ensures HexDigit(c) == Some(u)
  {
    if u < 10 then 0x30 + u else 0x61 + (u - 10)
  }

  /** A byte of a string as `escapedString` writes it. */
  function EscapedByte(u: byte): (s: Bytes)
    ensures s != []
  {
    if u == QUOTE then [BACKSLASH, QUOTE]
    else if u == BACKSLASH then [BACKSLASH, BACKSLASH]
    else if u == 0x08 then [BACKSLASH, 0x62]
    else if u == 0x0C then [BACKSLASH, 0x66]
    else if u == 0x0A then [BACKSLASH, 0x6E]
    else if u == 0x0D then [BACKSLASH, 0x72]
    else if u == 0x09 then [BACKSLASH, 0x74]
    else if u < 0x20 then [BACKSLASH, 0x75, ZERO, ZERO, HexDig(u / 16), HexDig(u % 16)]
    else [u]
  }

  function Escaped(s: Bytes): Bytes {
    if s == [] then [] else EscapedByte(s[0]) + Escaped(s[1..])
  }

  /** How the bytes of a string are written: quotes, backslashes and control characters are escaped. */
  lemma EscapedForms(a: Bytes, u: byte, b: Bytes)
    ensures Escaped(a + [u] + b) ==
            Escaped(a)
            + (if u == 0x22 then [0x5C, 0x22]
               else if u == 0x5C then [0x5C, 0x5C]
               else if u == 0x08 then [0x5C, 0x62]
               else if u == 0x0C then [0x5C, 0x66]
               else if u == 0x0A then [0x5C, 0x6E]
               else if u == 0x0D then [0x5C, 0x72]
               else if u == 0x09 then [0x5C, 0x74]
               else if u < 0x10 then [0x5C, 0x75, 0x30, 0x30, 0x30, if u < 0x0A then 0x30 + u else 0x57 + u]
               else if u < 0x20 then [0x5C, 0x75, 0x30, 0x30, 0x31, if u < 0x1A then 0x20 + u else 0x47 + u]
               else [u])
            + Escaped(b)
  {
    hide Escaped, EscapedByte;
    EscapedConcat(a + [u], b);
    EscapedConcat(a, [u]);
    OneEscaped(u);
  }

  lemma OneEscaped(u: byte)
    ensures Escaped([u]) == EscapedByte(u)
    ensures u == 0x22 || u == 0x5C ==> EscapedByte(u) == [0x5C, u]
    ensures u == 0x08 ==> EscapedByte(u) == [0x5C, 0x62]
    ensures u == 0x0C ==> EscapedByte(u) == [0x5C, 0x66]
    ensures u == 0x0A ==> EscapedByte(u) == [0x5C, 0x6E]
    ensures u == 0x0D ==> EscapedByte(u) == [0x5C, 0x72]
    ensures u == 0x09 ==> EscapedByte(u) == [0x5C, 0x74]
    ensures u < 0x10 && !(u in {0x08, 0x09, 0x0A, 0x0C, 0x0D}) ==>
              EscapedByte(u) == [0x5C, 0x75, 0x30, 0x30, 0x30, if u < 0x0A then 0x30 + u else 0x57 + u]
    ensures 0x10 <= u < 0x20 ==>
              EscapedByte(u) == [0x5C, 0x75, 0x30, 0x30, 0x31, if u < 0x1A then 0x20 + u else 0x47 + u]
    ensures u >= 0x20 && u != 0x22 && u != 0x5C ==> EscapedByte(u) == [u]
  {}

  lemma {:induction false} EscapedConcat(a: Bytes, b: Bytes)
    ensures Escaped(a + b) == Escaped(a) + Escaped(b)
  {
    hide EscapedByte;
    if a == [] {
      assert a + b == b;
    } else {
      assert (a + b)[1..] == a[1..] + b;
      EscapedConcat(a[1..], b);
    }
  }

  function Decimal(n: int): (s: Bytes)
    ensures s != []
  {
    if n < 0 then [MINUS] + Digits(-n) else Digits(n)
  }

  const NULL_TEXT: Bytes := [0x6E] + NULL_TAIL
  const TRUE_TEXT: Bytes := [0x74] + TRUE_TAIL
  const FALSE_TEXT: Bytes := [0x66] + FALSE_TAIL

  /** What `sprintf` makes of a finite double with 17 significant digits, unless it is an integer below 2^26. */
  type Format = Double -> Bytes

  /** Integers below 2^26 come out as their decimal digits, minus zero as plain zero. */
  function NumberText(n: Number, format: Format): Bytes {
    match n
    case Int(i) => Decimal(i)
    case Raw(d) => if Finite(Bits(d)) then format(d) else NULL_TEXT
  }

  function Spaces(n: nat): (s: Bytes)
    ensures |s| == n
  {
    seq(n, _ => SPACE)
  }

  function Open(c: byte, compact: bool): Bytes {
    if compact then [c] else [c, LINE_FEED]
  }

  function Deeper(indent: nat, compact: bool): nat {
    if compact then indent else indent + 1
  }

  function Separator(compact: bool): Bytes {
    if compact then [VALUE_SEPARATOR] else [VALUE_SEPARATOR, LINE_FEED]
  }

  function Last(compact: bool): Bytes {
    if compact then [] else [LINE_FEED]
  }

  function KeyText(key: Key, compact: bool): Bytes {
    [QUOTE] + Escaped(key) + [QUOTE, NAME_SEPARATOR] + if compact then [] else [SPACE]
  }

  function ValueText(v: Json, indent: nat, compact: bool, format: Format): Bytes
    decreases v
  {
    match v
    case Null => NULL_TEXT
    case Bool(b) => if b then TRUE_TEXT else FALSE_TEXT
    case Num(n) => NumberText(n, format)
    case Str(s) => [QUOTE] + Escaped(s) + [QUOTE]
    case Arr(items) =>
      Open(BEGIN_ARRAY, compact) + ItemsText(items, Deeper(indent, compact), compact, format)
      + Spaces(4 * indent) + [END_ARRAY]
    case Obj(members) =>
      Open(BEGIN_OBJECT, compact) + MembersText(members, Deeper(indent, compact), compact, format)
      + Spaces(4 * indent) + [END_OBJECT]
  }

  function ItemsText(items: seq<Json>, indent: nat, compact: bool, format: Format): Bytes
    decreases items
  {
    if items == [] then []
    else
      Spaces(4 * indent) + ValueText(items[0], indent, compact, format)
      + if |items| == 1 then Last(compact)
        else Separator(compact) + ItemsText(items[1..], indent, compact, format)
  }

  function MemberText(m: Member, indent: nat, compact: bool, format: Format): Bytes
    decreases m
  {
    KeyText(m.0, compact) + ValueText(m.1, indent, compact, format)
  }

  function MembersText(ms: seq<Member>, indent: nat, compact: bool, format: Format): Bytes
    decreases ms
  {
    if ms == [] then []
    else
      Spaces(4 * indent) + MemberText(ms[0], indent, compact, format)
      + if |ms| == 1 then Last(compact)
        else Separator(compact) + MembersText(ms[1..], indent, compact, format)
  }

  /** The text of a document: its root, and a final line feed when it is indented. */
  function DocumentText(v: Json, compact: bool, format: Format): Bytes {
    ValueText(v, 0, compact, format) + Last(compact)
  }

  // ---------------------------------------------------------------------
  // The printer
  // ---------------------------------------------------------------------

  method EscapedString(s: Bytes) returns (ba: Bytes)
    ensures ba == Escaped(s)
  {
    hide EscapedByte;
    ba := [];
    var src := 0;
    while src < |s|
      invariant src <= |s| && ba + Escaped(s[src..]) == Escaped(s)
    {
      assert s[src..][1..] == s[src + 1..];
      assert ba + (EscapedByte(s[src]) + Escaped(s[src + 1..])) == ba + EscapedByte(s[src]) + Escaped(s[src + 1..]);
      ba := ba + EscapedByte(s[src]);
      src := src + 1;
    }
    assert s[src..] == [] && ba + Escaped([]) == ba;
  }

  /** `valueToJson`: the value word `w` of block `b`. */
  method ValueToJson(b: Bytes, w: word, json: Bytes, indent: nat, compact: bool, format: Format, ghost v: Json)
    returns (r: Bytes)
    requires Stands(b, w, v)
    ensures r == json + ValueText(v, indent, compact, format)
    decreases v, 1
  {
    hide Contents, ValueAt, StringBytes, U32, Canonical, ItemsText, MembersText, Escaped, Finite;
    KindOfValue(b, w, v);
    var off := ValueField(w);
    match TypeField(w)
    case 1 =>
      r := json + if off != 0 then TRUE_TEXT else FALSE_TEXT;
    case 2 =>
      var n: Number;
      if IntField(w) == 1 {
        n := Int(SignedField(w));
      } else {
        DoubleInBlock(b, w, v.n);
        n := Canonical(b[off..off + 8]);
      }
      r := json + NumberText(n, format);
    case 3 =>
      StringInBlock(b, off);
      var s := EscapedString(b[off + 4..off + 4 + U32(b, off)]);
      r := json + [QUOTE];
      r := r + s;
      r := r + [QUOTE];
      ThreeParts(json, [QUOTE], s);
      ThreeParts(json, [QUOTE] + s, [QUOTE]);
    case 4 =>
      NestedInBlock(b, w, v);
      r := json + Open(BEGIN_ARRAY, compact);
      r := ArrayContentToJson(b[off..off + U32(b, off)], r, Deeper(indent, compact), compact, format, v.items);
      r := r + Spaces(4 * indent);
      r := r + [END_ARRAY];
      FourMore(json, Open(BEGIN_ARRAY, compact), ItemsText(v.items, Deeper(indent, compact), compact, format),
               Spaces(4 * indent), [END_ARRAY]);
    case 5 =>
      NestedInBlock(b, w, v);
      r := json + Open(BEGIN_OBJECT, compact);
      r := ObjectContentToJson(b[off..off + U32(b, off)], r, Deeper(indent, compact), compact, format, v.members);
      r := r + Spaces(4 * indent);
      r := r + [END_OBJECT];
      FourMore(json, Open(BEGIN_OBJECT, compact), MembersText(v.members, Deeper(indent, compact), compact, format),
               Spaces(4 * indent), [END_OBJECT]);
    case _ =>
      r := json + NULL_TEXT;
  }

  lemma FourMore(j: Bytes, a: Bytes, b: Bytes, c: Bytes, d: Bytes)
    ensures j + a + b + c + d == j + (a + b + c + d)
  {}

  method ArrayContentToJson(b: Bytes, json: Bytes, indent: nat, compact: bool, format: Format, ghost vs: seq<Json>)
    returns (r: Bytes)
    requires Contents(b, false) == Some(Arr(vs))
    ensures r == json + ItemsText(vs, indent, compact, format)
    decreases vs, 2
  {
    hide Contents, ValueText, TableWord, Stands, Split;
    ArrayLength(b, vs);
    r := json;
    if Length(b) == 0 {
      return;
    }
    var i := 0;
    while true
      invariant 0 <= i < |vs|
      invariant r + ItemsText(vs[i..], indent, compact, format) == json + ItemsText(vs, indent, compact, format)
      decreases |vs| - i
    {
      ItemWord(b, vs, i);
      ghost var before := r;
      r := r + Spaces(4 * indent);
      r := ValueToJson(b, TableWord(b, i), r, indent, compact, format, vs[i]);
      assert vs[i..][0] == vs[i] && vs[i..][1..] == vs[i + 1..];
      i := i + 1;
      if i == Length(b) {
        ThreeMore(before, Spaces(4 * indent), ValueText(vs[i - 1], indent, compact, format), Last(compact), []);
        if !compact {
          r := r + [LINE_FEED];
        }
        break;
      }
      r := r + Separator(compact);
      ThreeMore(before, Spaces(4 * indent), ValueText(vs[i - 1], indent, compact, format), Separator(compact),
                ItemsText(vs[i..], indent, compact, format));
    }
  }

  lemma ArrayLength(b: Bytes, vs: seq<Json>)
    requires Contents(b, false) == Some(Arr(vs))
    ensures |b| >= HEADER && Length(b) == |vs|
  {}

  lemma ObjectLength(b: Bytes, ms: seq<Member>)
    requires Contents(b, true) == Some(Obj(ms))
    ensures |b| >= HEADER && Length(b) == |ms|
  {}

  lemma ThreeMore(j: Bytes, a: Bytes, b: Bytes, c: Bytes, d: Bytes)
    ensures j + a + b + c + d == j + (a + b + (c + d))
    ensures j + a + b + c == j + (a + b + c)
  {}

  method ObjectContentToJson(b: Bytes, json: Bytes, indent: nat, compact: bool, format: Format, ghost ms: seq<Member>)
    returns (r: Bytes)
    requires Contents(b, true) == Some(Obj(ms))
    ensures r == json + MembersText(ms, indent, compact, format)
    decreases ms, 2
  {
    hide Contents, MemberText, TableWord, Stands, Split, KeyText, KeyAt, HasKey, U32;
    ObjectLength(b, ms);
    r := json;
    if Length(b) == 0 {
      return;
    }
    var i := 0;
    while true
      invariant 0 <= i < |ms|
      invariant r + MembersText(ms[i..], indent, compact, format) == json + MembersText(ms, indent, compact, format)
      decreases |ms| - i
    {
      ghost var before := r;
      r := r + Spaces(4 * indent);
      r := MemberToJson(b, i, r, indent, compact, format, ms);
      ghost var text := MemberText(ms[i], indent, compact, format);
      assert ms[i..][0] == ms[i] && ms[i..][1..] == ms[i + 1..];
      i := i + 1;
      if i == Length(b) {
        ThreeMore(before, Spaces(4 * indent), text, Last(compact), []);
        if !compact {
          r := r + [LINE_FEED];
        }
        break;
      }
      r := r + Separator(compact);
      ThreeMore(before, Spaces(4 * indent), text, Separator(compact), MembersText(ms[i..], indent, compact, format));
    }
  }

  /** One member without its indentation. */
  method MemberToJson(b: Bytes, i: nat, json: Bytes, indent: nat, compact: bool, format: Format, ghost ms: seq<Member>)
    returns (r: Bytes)
    requires Contents(b, true) == Some(Obj(ms)) && i < |ms|
    ensures r == json + MemberText(ms[i], indent, compact, format)
    decreases ms, 1
  {
    hide Contents, ValueText, TableWord, Stands, Split, KeyAt, U32;
    MemberWord(b, ms, i);
    var s := EscapedString(KeyAt(b, i));
    r := json + [QUOTE];
    r := r + s;
    r := r + if compact then [QUOTE, NAME_SEPARATOR] else [QUOTE, NAME_SEPARATOR, SPACE];
    assert r == json + KeyText(ms[i].0, compact);
    r := ValueToJson(b, U32(b, TableWord(b, i)), r, indent, compact, format, ms[i].1);
    assert r == json + (KeyText(ms[i].0, compact) + ValueText(ms[i].1, indent, compact, format));
  }

  /** `JsonDocument::toJson` */
  method ToJson(d: Data, compact: bool, format: Format) returns (json: Bytes)
    requires d.RootDoc().Some?
    ensures json == DocumentText(d.RootDoc().value, compact, format)
  {
    hide Contents, ItemsText, MembersText;
    d.RootTagged();
    ghost var v := d.RootDoc().value;
    if !IsObject(d.body) {
      json := Open(BEGIN_ARRAY, compact);
      json := ArrayContentToJson(d.Root(), json, Deeper(0, compact), compact, format, v.items);
      assert json == json + Spaces(4 * 0);
      json := json + [END_ARRAY] + Last(compact);
    } else {
      json := Open(BEGIN_OBJECT, compact);
      json := ObjectContentToJson(d.Root(), json, Deeper(0, compact), compact, format, v.members);
      assert json == json + Spaces(4 * 0);
      json := json + [END_OBJECT] + Last(compact);
    }
  }
}
