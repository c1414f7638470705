/**
  Printing and reading are inverse: what the printer writes for a document, compact or
  indented, is read as that document again, because it is a text of it.
 */
module RoundTrip {
  import opened Bytes
  import opened Numbers
  import opened Json
  import opened Decimals
  import opened Arena
  import opened Layout
  import opened Search
  import opened Reader
  import opened Grammar
  import opened Syntax
  import opened Printer
  import opened Parser
  import opened Store

  // ---------------------------------------------------------------------
  // Strings
  // ---------------------------------------------------------------------

  function HexOf(u: nat): Hex
    requires u < 16
  {
    Hex(u, false)
  }

  /** A byte of a string in the pieces of JSON text. */
  function EscapedPiece(u: byte): (p: Piece)
    ensures IsPiece(p)
  {
    if u == 0x22 || u == 0x5C then Escape(u)
    else if u == 0x08 then Escape(0x62)
    else if u == 0x0C then Escape(0x66)
    else if u == 0x0A then Escape(0x6E)
    else if u == 0x0D then Escape(0x72)
    else if u == 0x09 then Escape(0x74)
    else if u < 0x20 then Unicode(HexOf(0), HexOf(0), HexOf(u / 16), HexOf(u % 16))
    else Grammar.Plain(u)
  }

  function EscapedPieces(s: Bytes): (ps: seq<Piece>)
    ensures |ps| == |s|
  {
    seq(|s|, k requires 0 <= k < |s| => EscapedPiece(s[k]))
  }

  lemma PieceOfByte(u: byte)
    ensures PieceText(EscapedPiece(u)) == EscapedByte(u) && PieceValue(EscapedPiece(u)) == [u]
  {}

  lemma {:induction false} EscapedIsText(s: Bytes)
    ensures ArePieces(EscapedPieces(s))
    ensures PiecesText(EscapedPieces(s)) == Escaped(s) && PiecesValue(EscapedPieces(s)) == s
    decreases |s|
  {
    hide EscapedPiece, EscapedByte, PieceText, PieceValue, IsPiece;
    if s != [] {
      PieceOfByte(s[0]);
      EscapedIsText(s[1..]);
      assert EscapedPieces(s)[1..] == EscapedPieces(s[1..]);
      assert [s[0]] + s[1..] == s;
    }
  }

  /**
    Reading an escaped string up to its closing quote gives the string back, whatever its
    bytes, and consumes exactly that.
   */
  lemma StringReadsBack(t: Bytes, i: nat, s: Bytes, before: Bytes)
    requires At(t, i, Escaped(s) + [QUOTE])
    ensures ReadString(t, i, before) == Read(before + s, i + |Escaped(s)| + 1)
  {
    hide ReadString, PiecesText, PiecesValue, Escaped, ArePieces, EscapedPieces;
    EscapedIsText(s);
    PiecesRead(t, i, EscapedPieces(s), before);
  }

  // ---------------------------------------------------------------------
  // Numbers
  // ---------------------------------------------------------------------

  /**
    The printed form of `n` is read as `n`. For integers below 2^25 that is a fact about the
    two algorithms (`SmallIntegerFaithful`); for other numbers it is asked of `sprintf` and
    `strtod`.
   */
  ghost predicate Faithful(n: Number, format: Format, strtod: StrToD) {
    IsNumber(NumberText(n, format), n, strtod)
  }

  lemma {:induction false} LeadingDigit(n: nat)
    ensures Digits(n)[0] == ZERO <==> n == 0
    ensures n == 0 ==> Digits(n) == [ZERO]
  {
    if n >= 10 {
      LeadingDigit(n / 10);
    }
  }

  lemma DecimalIsNumeral(n: int)
    ensures var sign, ds := if n < 0 then [MINUS] else [], Digits(if n < 0 then -n else n);
            && IsInteger(ds) && Decimal(n) == sign + ds + ([] + []) && Signed(sign, ds) == n
  {
    var m := if n < 0 then -n else n;
    LeadingDigit(m);
    DigitsSpell(m);
  }

  /** Integers the parser keeps in the value word survive printing and reading, whatever the C library does. */
  lemma SmallIntegerFaithful(n: int, format: Format, strtod: StrToD)
    requires -TWO_TO_THE_25 < n < TWO_TO_THE_25
    ensures Faithful(Int(n), format, strtod)
  {
    hide Decimal, IsInteger, Signed, Digits, IsNumber;
    DecimalIsNumeral(n);
    NumeralIsNumber(if n < 0 then [MINUS] else [], Digits(if n < 0 then -n else n), [], [], Int(n), strtod);
  }

  /** Larger ones do when `strtod` reads their digits as the double they came from. */
  lemma LargeIntegerFaithful(n: int, format: Format, strtod: StrToD)
    requires n <= -TWO_TO_THE_25 || TWO_TO_THE_25 <= n
    requires forall s: Bytes :: At(s, 0, Decimal(n)) && Delimited(s, |Decimal(n)|) ==>
                                  strtod(s).Some? && Canonical(strtod(s).value) == Int(n)
    ensures Faithful(Int(n), format, strtod)
  {
    hide Decimal, IsInteger, Signed, Digits, IsNumber, Canonical, At, Delimited;
    DecimalIsNumeral(n);
    NumeralIsNumber(if n < 0 then [MINUS] else [], Digits(if n < 0 then -n else n), [], [], Int(n), strtod);
  }

  // ---------------------------------------------------------------------
  // Values
  // ---------------------------------------------------------------------

  /** Nested at most `n` deep, and only numbers that print faithfully. */
  ghost predicate Printable(v: Json, n: nat, format: Format, strtod: StrToD) {
    match v
    case Num(x) => Faithful(x, format, strtod)
    case Arr(items) => n > 0 && forall i :: 0 <= i < |items| ==> Printable(items[i], n - 1, format, strtod)
    case Obj(ms) => n > 0 && forall i :: 0 <= i < |ms| ==> Printable(ms[i].1, n - 1, format, strtod)
    case _ => true
  }

  /** The members of every object are in ascending key order. */
  predicate Sorted(v: Json) {
    match v
    case Arr(items) => forall i :: 0 <= i < |items| ==> Sorted(items[i])
    case Obj(ms) => Ascending(Keys(ms)) && forall i :: 0 <= i < |ms| ==> Sorted(ms[i].1)
    case _ => true
  }

  /** The printed text of a value as a tree. */
  function Printed(v: Json, indent: nat, compact: bool, format: Format): Tree
    decreases v, 1
  {
    match v
    case Null => NullName
    case Bool(b) => if b then TrueName else FalseName
    case Num(n) => Numeral(NumberText(n, format), n)
    case Str(s) => Quoted(EscapedPieces(s))
    case Arr(items) =>
      Bracketed(Inner(items == [], indent, compact),
                PrintedItems(items, [], Deeper(indent, compact), 4 * indent, compact, format))
    case Obj(ms) =>
      Braced(Inner(ms == [], indent, compact),
             PrintedPairs(ms, [], Deeper(indent, compact), 4 * indent, compact, format))
  }

  /** What follows an opening bracket or brace: all of it is space when nothing is inside. */
  function Inner(empty: bool, indent: nat, compact: bool): Bytes {
    Last(compact) + if empty then Spaces(4 * indent) else []
  }

  /** Space behind an item or member. */
  function Behind(last: bool, outer: nat, compact: bool): Bytes {
    if last then Last(compact) + Spaces(outer) else []
  }

  function PrintedItems(items: seq<Json>, lead: Bytes, indent: nat, outer: nat, compact: bool, format: Format):
      (es: seq<Element>)
    ensures |es| == |items|
    decreases items, 0
  {
    if items == [] then []
    else
      [Element(lead + Spaces(4 * indent), Printed(items[0], indent, compact, format),
               Behind(|items| == 1, outer, compact))]
      + PrintedItems(items[1..], Last(compact), indent, outer, compact, format)
  }

  function PrintedPair(m: Member, before: Bytes, indent: nat, after: Bytes, compact: bool, format: Format): Pair
    decreases m, 2
  {
    Pair(before, EscapedPieces(m.0), [],
         Element(if compact then [] else [SPACE], Printed(m.1, indent, compact, format), after))
  }

  function PrintedPairs(ms: seq<Member>, lead: Bytes, indent: nat, outer: nat, compact: bool, format: Format):
      (ps: seq<Pair>)
    ensures |ps| == |ms|
    decreases ms, 0
  {
    if ms == [] then []
    else
      [PrintedPair(ms[0], lead + Spaces(4 * indent), indent, Behind(|ms| == 1, outer, compact), compact, format)]
      + PrintedPairs(ms[1..], Last(compact), indent, outer, compact, format)
  }

  // ---------------------------------------------------------------------
  // It is that text
  // ---------------------------------------------------------------------

  lemma Separators(compact: bool)
    ensures Separator(compact) == [0x2C] + Last(compact)
    ensures Open(BEGIN_ARRAY, compact) == [0x5B] + Last(compact)
    ensures Open(BEGIN_OBJECT, compact) == [0x7B] + Last(compact)
    ensures Blank(Last(compact)) && forall n: nat :: Blank(Spaces(n))
  {}

  lemma {:induction false} PrintedText(v: Json, indent: nat, compact: bool, format: Format)
    ensures Text(Printed(v, indent, compact, format)) == ValueText(v, indent, compact, format)
    decreases v, 1
  {
    hide ItemsText, MembersText, ElementsText, PairsText, PrintedItems, PrintedPairs, NumberText, Spaces, Last, Deeper,
        Open, Escaped, PiecesText, EscapedPieces;
    Separators(compact);
    var l, d, sp := Last(compact), Deeper(indent, compact), Spaces(4 * indent);
    match v
    case Str(s) =>
      EscapedIsText(s);
      ThreeParts([QUOTE], Escaped(s), [QUOTE]);
    case Arr(items) =>
      var x := ItemsText(items, d, compact, format);
      PrintedItemsText(items, [], d, 4 * indent, compact, format);
      assert [] + x + sp == x + sp;
      Regroup(0x5B, l, x, sp, 0x5D);
      NoItems();
      assert items == [] ==> x == [];
    case Obj(ms) =>
      var x := MembersText(ms, d, compact, format);
      PrintedPairsText(ms, [], d, 4 * indent, compact, format);
      assert [] + x + sp == x + sp;
      Regroup(0x7B, l, x, sp, 0x7D);
      NoItems();
      assert ms == [] ==> x == [];
    case _ =>
  }

  lemma Regroup(a: byte, l: Bytes, x: Bytes, sp: Bytes, c: byte)
    ensures ([a] + l) + x + sp + [c] == [a] + ((l + []) + ((x + sp) + [c]))
    ensures x == [] ==> ([a] + l) + x + sp + [c] == [a] + ((l + sp) + ([] + [c]))
  {}

  lemma {:induction false} PrintedItemsText(items: seq<Json>, lead: Bytes, indent: nat, outer: nat, compact: bool,
      format: Format)
    ensures items == [] ==> ElementsText(PrintedItems(items, lead, indent, outer, compact, format)) == []
                            && ItemsText(items, indent, compact, format) == []
    ensures items != [] ==> ElementsText(PrintedItems(items, lead, indent, outer, compact, format)) ==
                            lead + ItemsText(items, indent, compact, format) + Spaces(outer)
    decreases items, 0
  {
    hide ValueText, Text, Spaces, Last, Separator;
    if items != [] {
      Separators(compact);
      PrintedText(items[0], indent, compact, format);
      var es := PrintedItems(items, lead, indent, outer, compact, format);
      var rest := PrintedItems(items[1..], Last(compact), indent, outer, compact, format);
      assert es[1..] == rest;
      PrintedItemsText(items[1..], Last(compact), indent, outer, compact, format);
      Rows(lead, Spaces(4 * indent), ValueText(items[0], indent, compact, format), Last(compact), Spaces(outer),
           ItemsText(items[1..], indent, compact, format));
    }
  }

  /** A row of text grouped by the printer, and by the tree. */
  lemma Rows(lead: Bytes, sp: Bytes, v: Bytes, l: Bytes, outer: Bytes, rest: Bytes)
    ensures (lead + sp) + v + (l + outer) + [] == lead + (sp + v + l) + outer
    ensures (lead + sp) + v + [] + ([0x2C] + (l + rest + outer)) == lead + (sp + v + (([0x2C] + l) + rest)) + outer
  {}

  lemma {:induction false} PrintedPairText(m: Member, before: Bytes, indent: nat, after: Bytes, compact: bool,
      format: Format)
    ensures PairText(PrintedPair(m, before, indent, after, compact, format)) ==
            before + MemberText(m, indent, compact, format) + after
    decreases m, 2
  {
    hide ValueText, Text, Escaped, PiecesText, EscapedPieces;
    EscapedIsText(m.0);
    PrintedText(m.1, indent, compact, format);
    var k, v := Escaped(m.0), ValueText(m.1, indent, compact, format);
    var sp: Bytes := if compact then [] else [SPACE];
    assert [QUOTE, NAME_SEPARATOR] == [QUOTE] + [NAME_SEPARATOR];
    assert (before + ([0x22] + (k + [0x22])) + ([] + [0x3A])) + (sp + v + after) ==
           before + (([0x22] + k + ([0x22] + [0x3A]) + sp) + v) + after;
  }

  lemma {:induction false} PrintedPairsText(ms: seq<Member>, lead: Bytes, indent: nat, outer: nat, compact: bool,
      format: Format)
    ensures ms == [] ==> PairsText(PrintedPairs(ms, lead, indent, outer, compact, format)) == []
                         && MembersText(ms, indent, compact, format) == []
    ensures ms != [] ==> PairsText(PrintedPairs(ms, lead, indent, outer, compact, format)) ==
                         lead + MembersText(ms, indent, compact, format) + Spaces(outer)
    decreases ms, 0
  {
    hide MemberText, PairText, PrintedPair, Spaces, Last, Separator;
    if ms != [] {
      Separators(compact);
      var before, after := lead + Spaces(4 * indent), Behind(|ms| == 1, outer, compact);
      PrintedPairText(ms[0], before, indent, after, compact, format);
      var ps := PrintedPairs(ms, lead, indent, outer, compact, format);
      assert ps[1..] == PrintedPairs(ms[1..], Last(compact), indent, outer, compact, format);
      PrintedPairsText(ms[1..], Last(compact), indent, outer, compact, format);
      Rows(lead, Spaces(4 * indent), MemberText(ms[0], indent, compact, format), Last(compact), Spaces(outer),
           MembersText(ms[1..], indent, compact, format));
    }
  }

  // ---------------------------------------------------------------------
  // It is well-formed, and stands for the value
  // ---------------------------------------------------------------------

  lemma {:induction false} PrintedIsText(v: Json, n: nat, indent: nat, compact: bool, format: Format, strtod: StrToD)
    requires Printable(v, n, format, strtod)
    ensures IsText(Printed(v, indent, compact, format), n, strtod)
    decreases v, 1
  {
    hide PrintedItems, PrintedPairs, IsElement, IsPair, IsNumber, Blank, Spaces, Last, ArePieces, EscapedPieces, Inner;
    InnerBlank(indent, compact);
    match v
    case Str(s) =>
      EscapedIsText(s);
    case Arr(items) =>
      Separators(compact);
      NothingBlank();
      PrintedItemsAreText(items, n - 1, [], Deeper(indent, compact), 4 * indent, compact, format, strtod);
    case Obj(ms) =>
      Separators(compact);
      NothingBlank();
      PrintedPairsAreText(ms, n - 1, [], Deeper(indent, compact), 4 * indent, compact, format, strtod);
    case _ =>
  }

  lemma NothingBlank()
    ensures Blank([])
  {}

  lemma InnerBlank(indent: nat, compact: bool)
    ensures Blank(Inner(true, indent, compact)) && Blank(Inner(false, indent, compact))
  {}

  lemma BehindBlank(last: bool, lead: Bytes, indent: nat, outer: nat, compact: bool)
    requires Blank(lead)
    ensures Blank(Behind(last, outer, compact)) && Blank(lead + Spaces(4 * indent)) && Blank(Last(compact))
  {}

  lemma {:induction false} PrintedItemsAreText(items: seq<Json>, n: nat, lead: Bytes, indent: nat, outer: nat,
      compact: bool, format: Format, strtod: StrToD)
    requires Blank(lead) && forall i :: 0 <= i < |items| ==> Printable(items[i], n, format, strtod)
    ensures forall k :: 0 <= k < |items| ==>
              IsElement(PrintedItems(items, lead, indent, outer, compact, format)[k], n, strtod)
    decreases items, 0
  {
    hide IsText, Printed, Blank, Spaces, Last, Behind, Printable;
    if items != [] {
      BehindBlank(|items| == 1, lead, indent, outer, compact);
      PrintedIsText(items[0], n, indent, compact, format, strtod);
      PrintedItemsAreText(items[1..], n, Last(compact), indent, outer, compact, format, strtod);
    }
  }

  lemma {:induction false} PrintedPairIsText(m: Member, n: nat, before: Bytes, indent: nat, after: Bytes,
      compact: bool, format: Format, strtod: StrToD)
    requires Blank(before) && Blank(after) && Printable(m.1, n, format, strtod)
    ensures IsPair(PrintedPair(m, before, indent, after, compact, format), n, strtod)
    decreases m, 2
  {
    hide IsText, Printed, ArePieces, EscapedPieces;
    EscapedIsText(m.0);
    PrintedIsText(m.1, n, indent, compact, format, strtod);
  }

  lemma {:induction false} PrintedPairsAreText(ms: seq<Member>, n: nat, lead: Bytes, indent: nat, outer: nat,
      compact: bool, format: Format, strtod: StrToD)
    requires Blank(lead) && forall i :: 0 <= i < |ms| ==> Printable(ms[i].1, n, format, strtod)
    ensures forall k :: 0 <= k < |ms| ==>
              IsPair(PrintedPairs(ms, lead, indent, outer, compact, format)[k], n, strtod)
    decreases ms, 0
  {
    hide IsPair, PrintedPair, Spaces, Last, Behind, Printable, Blank;
    if ms != [] {
      BehindBlank(|ms| == 1, lead, indent, outer, compact);
      PrintedPairIsText(ms[0], n, lead + Spaces(4 * indent), indent, Behind(|ms| == 1, outer, compact), compact, format,
          strtod);
      PrintedPairsAreText(ms[1..], n, Last(compact), indent, outer, compact, format, strtod);
    }
  }

  lemma {:induction false} PrintedValue(v: Json, indent: nat, compact: bool, format: Format)
    requires Sorted(v)
    ensures Value(Printed(v, indent, compact, format)) == v
    decreases v, 1
  {
    hide PrintedItems, PrintedPairs, PiecesValue, EscapedPieces, Inner;
    match v
    case Str(s) =>
      EscapedIsText(s);
    case Arr(items) =>
      PrintedValues(items, [], Deeper(indent, compact), 4 * indent, compact, format);
    case Obj(ms) =>
      assert [] + ms == ms;
      PrintedMembers([], ms, [], Deeper(indent, compact), 4 * indent, compact, format);
    case _ =>
  }

  lemma {:induction false} PrintedValues(items: seq<Json>, lead: Bytes, indent: nat, outer: nat, compact: bool,
      format: Format)
    requires forall k :: 0 <= k < |items| ==> Sorted(items[k])
    ensures ValuesOf(PrintedItems(items, lead, indent, outer, compact, format)) == items
    decreases items, 0
  {
    hide Value, Printed, Sorted;
    if items != [] {
      PrintedValue(items[0], indent, compact, format);
      PrintedValues(items[1..], Last(compact), indent, outer, compact, format);
      var es := PrintedItems(items, lead, indent, outer, compact, format);
      assert es[1..] == PrintedItems(items[1..], Last(compact), indent, outer, compact, format);
      assert [items[0]] + items[1..] == items;
    }
  }

  lemma {:induction false} PrintedMemberValue(m: Member, indent: nat, compact: bool, format: Format)
    requires Sorted(m.1)
    ensures Value(Printed(m.1, indent, compact, format)) == m.1
    decreases m, 2
  {
    PrintedValue(m.1, indent, compact, format);
  }

  /** Keys in ascending order are bound one behind the other. */
  lemma {:induction false} PrintedMembers(done: seq<Member>, ms: seq<Member>, lead: Bytes, indent: nat, outer: nat,
      compact: bool, format: Format)
    requires Ascending(Keys(done + ms)) && forall k :: 0 <= k < |ms| ==> Sorted(ms[k].1)
    ensures Bound(done, PrintedPairs(ms, lead, indent, outer, compact, format)) == done + ms
    decreases ms, 0
  {
    hide Value, Printed, Sorted, Ascending, Keys, Put, PiecesValue, EscapedPieces;
    if ms == [] {
      assert done + ms == done;
    } else {
      EscapedIsText(ms[0].0);
      PrintedMemberValue(ms[0], indent, compact, format);
      FirstPart(done + ms, |done| + 1);
      assert (done + ms)[..|done| + 1] == done + [ms[0]];
      PutLast(done, ms[0]);
      assert done + [ms[0]] + ms[1..] == done + ms;
      PrintedMembers(done + [ms[0]], ms[1..], Last(compact), indent, outer, compact, format);
      var ps := PrintedPairs(ms, lead, indent, outer, compact, format);
      assert ps[1..] == PrintedPairs(ms[1..], Last(compact), indent, outer, compact, format);
    }
  }

  lemma PutLast(ms: seq<Member>, m: Member)
    requires Ascending(Keys(ms + [m]))
    ensures Put(ms, m.0, m.1) == ms + [m]
  {
    var ks := Keys(ms);
    forall i | 0 <= i < |ms|
      ensures Less(ks[i], m.0)
    {
      assert Keys(ms + [m])[i] == ks[i] && Keys(ms + [m])[|ms|] == m.0;
    }
    assert forall i, j :: 0 <= i < j < |ks| ==> Keys(ms + [m])[i] == ks[i] && Keys(ms + [m])[j] == ks[j];
    RankUnique(ks, m.0, |ms|);
  }

  lemma FirstPart(ms: seq<Member>, k: nat)
    requires Ascending(Keys(ms)) && k <= |ms|
    ensures Ascending(Keys(ms[..k]))
  {
    assert Keys(ms[..k]) == Keys(ms)[..k];
  }

  /** The printed text of a value, in front of a delimiter, is read as that value. */
  lemma ValueReadsBack(src: Source, i: nat, v: Json, indent: nat, compact: bool, format: Format, depth: nat)
    requires depth <= NESTING_LIMIT && Sorted(v) && Printable(v, NESTING_LIMIT - depth, format, src.strtod)
    requires At(src.t, i, ValueText(v, indent, compact, format))
    requires Delimited(src.t, i + |ValueText(v, indent, compact, format)|)
    ensures ReadsAs(src.t, src.ReadValue(i, depth), v, i + |ValueText(v, indent, compact, format)|)
  {
    hide *;
    PrintedText(v, indent, compact, format);
    PrintedIsText(v, NESTING_LIMIT - depth, indent, compact, format, src.strtod);
    PrintedValue(v, indent, compact, format);
    ValueRead(src, i, Printed(v, indent, compact, format), depth);
  }

  // ---------------------------------------------------------------------
  // Documents
  // ---------------------------------------------------------------------

  /** The text of a document nested no deeper than the parser allows is read as that document. */
  lemma DocumentReadsBack(src: Source, v: Json, compact: bool, format: Format)
    requires (v.Arr? || v.Obj?) && Sorted(v) && Printable(v, NESTING_LIMIT, format, src.strtod)
    requires src.t == DocumentText(v, compact, format)
    ensures src.ReadDocument() == Read(v, |src.t|)
  {
    hide ValueText, Source.ReadDocument, Printable, Sorted, Last, Text, Value, IsText, Blank;
    var s := Printed(v, 0, compact, format);
    PrintedText(v, 0, compact, format);
    PrintedIsText(v, NESTING_LIMIT, 0, compact, format, src.strtod);
    PrintedValue(v, 0, compact, format);
    Separators(compact);
    NothingBlank();
    assert src.t == [] + [] + Text(s) + Last(compact);
    MarkedDocumentRead(src, false, [], s, Last(compact));
  }

  /** Nested at most `n` deep, with no numbers but integers below 2^25. */
  predicate Plain(v: Json, n: nat) {
    match v
    case Num(x) => x.Int? && -TWO_TO_THE_25 < x.n < TWO_TO_THE_25
    case Arr(items) => n > 0 && forall i :: 0 <= i < |items| ==> Plain(items[i], n - 1)
    case Obj(ms) => n > 0 && forall i :: 0 <= i < |ms| ==> Plain(ms[i].1, n - 1)
    case _ => true
  }

  lemma {:induction false} PlainIsPrintable(v: Json, n: nat, format: Format, strtod: StrToD)
    requires Plain(v, n)
    ensures Printable(v, n, format, strtod)
    decreases v
  {
    match v
    case Num(x) => SmallIntegerFaithful(x.n, format, strtod);
    case Arr(items) =>
      forall i | 0 <= i < |items|
        ensures Printable(items[i], n - 1, format, strtod)
      {
        PlainIsPrintable(items[i], n - 1, format, strtod);
      }
    case Obj(ms) =>
      forall i | 0 <= i < |ms|
        ensures Printable(ms[i].1, n - 1, format, strtod)
      {
        PlainIsPrintable(ms[i].1, n - 1, format, strtod);
      }
    case _ =>
  }

  lemma {:induction false} ValueSorted(d: Bytes, w: word)
    requires ValueAt(d, w).Some?
    ensures Sorted(ValueAt(d, w).value)
    decreases |d|, 2
  {
    hide Contents, Sorted, ContainerAt;
    var v, off, isObject := ValueAt(d, w).value, ValueField(w), TypeField(w) == T_OBJECT;
    if IsNested(w) {
      NestedValue(d, w);
      ContainerKinds(d, off, isObject);
      ContentsSorted(Block(d, off), isObject);
    } else {
      ScalarSorted(d, w);
    }
  }

  lemma ScalarSorted(d: Bytes, w: word)
    requires ValueAt(d, w).Some? && !IsNested(w)
    ensures Sorted(ValueAt(d, w).value)
  {}

  /** Everything the binary layout can stand for has its members in order. */
  lemma {:induction false} ContentsSorted(b: Bytes, isObject: bool)
    requires Contents(b, isObject).Some?
    ensures Sorted(Contents(b, isObject).value)
    decreases |b|, 0
  {
    hide ValueAt, EntryAt, Split;
    var p, v := Split(b).value, Contents(b, isObject).value;
    if isObject {
      ObjectDocIs(p.data, p.table, v.members);
      forall i | 0 <= i < |v.members|
        ensures Sorted(v.members[i].1)
      {
        assert EntryAt(p.data, p.table[i]) == Some(v.members[i]);
        EntryValue(p.data, p.table[i], v.members[i]);
        ValueSorted(p.data, U32(p.data, p.table[i] - HEADER));
      }
    } else {
      forall i | 0 <= i < |v.items|
        ensures Sorted(v.items[i])
      {
        ArrayItem(p.data, p.table, i);
        ValueSorted(p.data, p.table[i]);
      }
    }
  }

  /**
    `fromJson(toJson(d))` is `d`, compact or indented, unless the text is longer than the
    size limit of the store allows for.
   */
  method PrintAndParse(d: Data, compact: bool, format: Format, strtod: StrToD) returns (r: Data?, error: ParseError)
    requires d.RootDoc().Some? && Printable(d.RootDoc().value, NESTING_LIMIT, format, strtod)
    requires |DocumentText(d.RootDoc().value, compact, format)| <= MAX_TEXT
    ensures r != null ==> fresh(r) && r.RootDoc() == d.RootDoc() && error == NoError
    ensures r == null ==> error == DocumentTooLarge
    ensures 12 * |DocumentText(d.RootDoc().value, compact, format)| + 40 < MAX_SIZE ==> r != null
  {
    hide Doc, Contents, Printable, DocumentText, Source.ReadDocument;
    var text := ToJson(d, compact, format);
    ghost var v, src := d.RootDoc().value, Source(text, strtod);
    d.RootTagged();
    ContentsSorted(d.Root(), IsObject(d.body));
    DocumentReadsBack(src, v, compact, format);
    var offset;
    r, error, offset := FromJson(Source(text, strtod));
  }

  /** The same for documents with no numbers but small integers: nothing is asked of the C library. */
  method PrintAndParsePlain(d: Data, compact: bool, format: Format, strtod: StrToD) returns (r: Data?,
      error: ParseError)
    requires d.RootDoc().Some? && Plain(d.RootDoc().value, NESTING_LIMIT)
    requires 12 * |DocumentText(d.RootDoc().value, compact, format)| + 40 < MAX_SIZE
    ensures r != null && fresh(r) && r.RootDoc() == d.RootDoc() && error == NoError
  {
    hide Doc, DocumentText, Plain, Printable;
    PlainIsPrintable(d.RootDoc().value, NESTING_LIMIT, format, strtod);
    r, error := PrintAndParse(d, compact, format, strtod);
  }
}
