/**
  Whole JSON texts as trees: every way of writing a value, with space wherever it may be.
  The parser's grammar reads each text as the value its tree stands for.
 */
module Syntax {
  import opened Bytes
  import opened Numbers
  import opened Json
  import opened Reader
  import opened Grammar

  type StrToD = Bytes -> Option<Double>

  /** A text of a value. A number is any text that is read as one. */
  datatype Tree =
    | NullName
    | TrueName
    | FalseName
    | Numeral(x: Bytes, n: Number)
    | Quoted(ps: seq<Piece>)
    | Bracketed(inner: Bytes, items: seq<Element>)
    | Braced(inner: Bytes, pairs: seq<Pair>)

  /** A value with the space around it. */
  datatype Element = Element(before: Bytes, v: Tree, after: Bytes)

  /** A member: its key with the space around that, and its value. */
  datatype Pair = Pair(before: Bytes, key: seq<Piece>, gap: Bytes, value: Element)

  // ---------------------------------------------------------------------
  // The text of a tree, and the value it stands for
  // ---------------------------------------------------------------------

  function Text(s: Tree): Bytes {
    match s
    case NullName => [0x6E, 0x75, 0x6C, 0x6C]
    case TrueName => [0x74, 0x72, 0x75, 0x65]
    case FalseName => [0x66, 0x61, 0x6C, 0x73, 0x65]
    case Numeral(x, _) => x
    case Quoted(ps) => [0x22] + (PiecesText(ps) + [0x22])
    case Bracketed(inner, items) => [0x5B] + (inner + (ElementsText(items) + [0x5D]))
    case Braced(inner, pairs) => [0x7B] + (inner + (PairsText(pairs) + [0x7D]))
  }

  function ElementText(e: Element): Bytes {
    e.before + Text(e.v) + e.after
  }

  function ElementsText(items: seq<Element>): Bytes {
    if items == [] then []
    else ElementText(items[0]) + if |items| == 1 then [] else [0x2C] + ElementsText(items[1..])
  }

  function PairKeyText(p: Pair): Bytes {
    p.before + ([0x22] + (PiecesText(p.key) + [0x22])) + (p.gap + [0x3A])
  }

  function PairText(p: Pair): Bytes {
    PairKeyText(p) + ElementText(p.value)
  }

  function PairsText(pairs: seq<Pair>): Bytes {
    if pairs == [] then []
    else PairText(pairs[0]) + if |pairs| == 1 then [] else [0x2C] + PairsText(pairs[1..])
  }

  function Value(s: Tree): Json {
    match s
    case NullName => Null
    case TrueName => Bool(true)
    case FalseName => Bool(false)
    case Numeral(_, n) => Num(n)
    case Quoted(ps) => Str(PiecesValue(ps))
    case Bracketed(_, items) => Arr(ValuesOf(items))
    case Braced(_, pairs) => Obj(Bound([], pairs))
  }

  function ValuesOf(items: seq<Element>): (vs: seq<Json>)
    ensures |vs| == |items|
  {
    if items == [] then [] else [Value(items[0].v)] + ValuesOf(items[1..])
  }

  /** Members bound one after the other, so that of those with the same key the last one counts. */
  function Bound(ms: seq<Member>, pairs: seq<Pair>): seq<Member>
    decreases pairs
  {
    if pairs == [] then ms
    else Bound(Put(ms, PiecesValue(pairs[0].key), Value(pairs[0].value.v)), pairs[1..])
  }

  // ---------------------------------------------------------------------
  // Which trees are texts
  // ---------------------------------------------------------------------

  /** A number starts like nothing else does. */
  predicate StartsNumber(c: byte) {
    0x30 <= c <= 0x39 || c == 0x2D || c == 0x2E
  }

  /** The text `x` is read as the number `n`, wherever it stands in front of a delimiter. */
  ghost predicate IsNumber(x: Bytes, n: Number, strtod: StrToD) {
    && x != [] && StartsNumber(x[0])
    && forall t: Bytes, i: nat :: At(t, i, x) && Delimited(t, i + |x|) ==>
         Source(t, strtod).ReadNumber(i) == Read(Num(n), i + |x|)
  }

  /** Nested at most `n` deep, with nothing but space where space may be. */
  ghost predicate IsText(s: Tree, n: nat, strtod: StrToD)
    decreases s, 0
  {
    match s
    case Numeral(x, v) => IsNumber(x, v, strtod)
    case Quoted(ps) => ArePieces(ps)
    case Bracketed(inner, items) =>
      n > 0 && Blank(inner) && forall k :: 0 <= k < |items| ==> IsElement(items[k], n - 1, strtod)
    case Braced(inner, pairs) =>
      n > 0 && Blank(inner) && forall k :: 0 <= k < |pairs| ==> IsPair(pairs[k], n - 1, strtod)
    case _ => true
  }

  ghost predicate IsElement(e: Element, n: nat, strtod: StrToD)
    decreases e, 1
  {
    Blank(e.before) && Blank(e.after) && IsText(e.v, n, strtod)
  }

  ghost predicate IsPair(p: Pair, n: nat, strtod: StrToD)
    decreases p, 2
  {
    Blank(p.before) && ArePieces(p.key) && Blank(p.gap) && IsElement(p.value, n, strtod)
  }

  /** Every number of the grammar is one: the integer its digits spell, or what `strtod` always makes of it. */
  lemma NumeralIsNumber(sign: Bytes, ds: Bytes, frac: Bytes, exp: Bytes, n: Number, strtod: StrToD)
    requires (sign == [] || sign == [0x2D]) && IsInteger(ds)
    requires (frac == [] || IsFraction(frac)) && (exp == [] || IsExponent(exp))
    requires var x, m := sign + ds + (frac + exp), Signed(sign, ds);
             if frac == [] && exp == [] && -0x200_0000 < m < 0x200_0000 then n == Int(m)
             else forall s :: At(s, 0, x) && Delimited(s, |x|) ==> strtod(s).Some? && Canonical(strtod(s).value) == n
    ensures IsNumber(sign + ds + (frac + exp), n, strtod)
  {
    hide IsFraction, IsExponent, Signed, Canonical, NumberEnd, Delimited;
    var x := sign + ds + (frac + exp);
    forall t: Bytes, i: nat | At(t, i, x) && Delimited(t, i + |x|)
      ensures Source(t, strtod).ReadNumber(i) == Read(Num(n), i + |x|)
    {
      NumeralReadAt(Source(t, strtod), i, sign, ds, frac, exp);
      AtHere(t, i, x);
    }
  }

  // ---------------------------------------------------------------------
  // Reading
  // ---------------------------------------------------------------------

  /** Read as `v`, up to space in front of `end`. */
  predicate ReadsAs(t: Bytes, r: Outcome<Json>, v: Json, end: nat)
    requires end <= |t|
  {
    r.Read? && r.value == v && r.next <= |t| && SkipSpace(t, r.next) == SkipSpace(t, end)
  }

  lemma FirstByte(s: Tree, n: nat, strtod: StrToD)
    requires IsText(s, n, strtod)
    ensures Text(s) != [] && !IsBlank(Text(s)[0]) && Text(s)[0] != 0x5D
  {}

  lemma LiteralRead(t: Bytes, i: nat, tail: Bytes, v: Json)
    requires At(t, i, tail) && i + |tail| < |t|
    ensures ReadLiteral(t, i, tail, v) == Read(v, i + |tail|)
  {
    TailMatches(t, i, tail);
  }

  lemma {:induction false} TailMatches(t: Bytes, i: nat, tail: Bytes)
    requires At(t, i, tail)
    ensures MatchEnd(t, i, tail) == Read((), i + |tail|)
    decreases |tail|
  {
    if tail != [] {
      AtByte(t, i, tail, 0);
      assert tail == [tail[0]] + tail[1..];
      AtConcat(t, i, [tail[0]], tail[1..]);
      TailMatches(t, i + 1, tail[1..]);
    }
  }

  lemma NameRead(src: Source, i: nat, c: byte, tail: Bytes, v: Json, depth: nat)
    requires At(src.t, i, [c] + tail) && i + 1 + |tail| < |src.t|
    requires (c == 0x6E && tail == [0x75, 0x6C, 0x6C] && v == Null)
             || (c == 0x74 && tail == [0x72, 0x75, 0x65] && v == Bool(true))
             || (c == 0x66 && tail == [0x61, 0x6C, 0x73, 0x65] && v == Bool(false))
    ensures src.ReadValue(i, depth) == Read(v, i + 1 + |tail|)
  {
    hide ReadLiteral, At;
    AtConcat(src.t, i, [c], tail);
    AtByte(src.t, i, [c], 0);
    LiteralRead(src.t, i + 1, tail, v);
  }

  lemma ScalarRead(src: Source, i: nat, s: Tree, depth: nat)
    requires !s.Bracketed? && !s.Braced? && IsText(s, 0, src.strtod)
    requires At(src.t, i, Text(s)) && Delimited(src.t, i + |Text(s)|)
    ensures src.ReadValue(i, depth) == Read(Value(s), i + |Text(s)|)
  {
    hide ReadString, ReadLiteral, Source.ReadNumber, At, ArePieces, PiecesText, PiecesValue, IsDelimiter;
    var t, x := src.t, Text(s);
    match s
    case NullName =>
      assert x == [0x6E] + [0x75, 0x6C, 0x6C];
      NameRead(src, i, 0x6E, [0x75, 0x6C, 0x6C], Null, depth);
    case TrueName =>
      assert x == [0x74] + [0x72, 0x75, 0x65];
      NameRead(src, i, 0x74, [0x72, 0x75, 0x65], Bool(true), depth);
    case FalseName =>
      assert x == [0x66] + [0x61, 0x6C, 0x73, 0x65];
      NameRead(src, i, 0x66, [0x61, 0x6C, 0x73, 0x65], Bool(false), depth);
    case Numeral(_, n) =>
      AtByte(t, i, x, 0);
      assert Source(t, src.strtod) == src;
    case Quoted(ps) =>
      AtByte(t, i, x, 0);
      AtConcat(t, i, [0x22], PiecesText(ps) + [0x22]);
      PiecesRead(t, i + 1, ps, []);
      assert [] + PiecesValue(ps) == PiecesValue(ps);
  }

  lemma {:induction false} ValueRead(src: Source, i: nat, s: Tree, depth: nat)
    requires depth <= NESTING_LIMIT && IsText(s, NESTING_LIMIT - depth, src.strtod)
    requires At(src.t, i, Text(s)) && Delimited(src.t, i + |Text(s)|)
    ensures ReadsAs(src.t, src.ReadValue(i, depth), Value(s), i + |Text(s)|)
    decreases s, 3
  {
    hide Source.ReadValue, Source.ReadArray, Source.ReadObject, SkipSpace, Text, ElementsText, PairsText, At, Delimited,
        IsText, ValuesOf, Bound;
    var t, x := src.t, Text(s);
    AtEnd(t, i, x);
    SkipSpaceTwice(t, i + |x|);
    if s.Bracketed? {
      ContainerText(s);
      AtConcat(t, i, [0x5B], s.inner + (ElementsText(s.items) + [0x5D]));
      AtByte(t, i, [0x5B], 0);
      ContainerRead(src, i, depth);
      ArrayRead(src, i + 1, s.inner, s.items, depth);
    } else if s.Braced? {
      ContainerText(s);
      AtConcat(t, i, [0x7B], s.inner + (PairsText(s.pairs) + [0x7D]));
      AtByte(t, i, [0x7B], 0);
      ContainerRead(src, i, depth);
      ObjectRead(src, i + 1, s.inner, s.pairs, depth);
    } else {
      ScalarAnywhere(s, NESTING_LIMIT - depth, src.strtod);
      ScalarRead(src, i, s, depth);
    }
  }

  lemma ContainerText(s: Tree)
    ensures s.Bracketed? ==> Text(s) == [0x5B] + (s.inner + (ElementsText(s.items) + [0x5D]))
    ensures s.Braced? ==> Text(s) == [0x7B] + (s.inner + (PairsText(s.pairs) + [0x7D]))
  {
    hide ElementsText, PairsText;
  }

  lemma ScalarAnywhere(s: Tree, n: nat, strtod: StrToD)
    requires !s.Bracketed? && !s.Braced? && IsText(s, n, strtod)
    ensures IsText(s, 0, strtod)
  {
    hide IsNumber;
  }

  lemma AtEnd(t: Bytes, i: nat, x: Bytes)
    requires At(t, i, x)
    ensures i + |x| <= |t|
  {}

  lemma ContainerRead(src: Source, i: nat, depth: nat)
    requires i < |src.t|
    ensures src.t[i] == 0x5B ==> src.ReadValue(i, depth) == src.ReadArray(i + 1, depth)
    ensures src.t[i] == 0x7B ==> src.ReadValue(i, depth) == src.ReadObject(i + 1, depth)
  {
    hide Source.ReadArray, Source.ReadObject, Source.ReadNumber, ReadString, ReadLiteral;
  }

  lemma {:induction false} ArrayRead(src: Source, i: nat, inner: Bytes, items: seq<Element>, depth: nat)
    requires depth <= NESTING_LIMIT && IsText(Bracketed(inner, items), NESTING_LIMIT - depth, src.strtod)
    requires var x := inner + (ElementsText(items) + [0x5D]); At(src.t, i, x)
    ensures i + |inner| + |ElementsText(items)| + 1 <= |src.t|
    ensures src.ReadArray(i, depth) ==
            Read(Arr(ValuesOf(items)), SkipSpace(src.t, i + |inner| + |ElementsText(items)| + 1))
    decreases items, 6
  {
    hide Source.ReadItems, SkipSpace, NextToken, ElementsText, At, ValuesOf, IsElement;
    var t := src.t;
    AtConcat(t, i, inner, ElementsText(items) + [0x5D]);
    AtConcat(t, i + |inner|, ElementsText(items), [0x5D]);
    BlankSkipped(t, i, inner);
    if items == [] {
      NoItems();
      assert ElementsText(items) + [0x5D] == [0x5D] && inner + [0x5D] == inner + (ElementsText(items) + [0x5D]);
      TokenAt(t, i, inner, 0x5D);
      SkipSpaceTwice(t, i);
      SameToken(t, SkipSpace(t, i), i);
    } else {
      FirstItem(src, i + |inner|, items, depth + 1);
      ItemsRead(src, i + |inner|, items, depth + 1, []);
      assert [] + ValuesOf(items) == ValuesOf(items);
    }
  }

  lemma NoItems()
    ensures ElementsText([]) == [] == PairsText([]) && ValuesOf([]) == [] && Bound([], []) == []
  {}

  lemma ElementsTextIs(items: seq<Element>)
    requires items != []
    ensures ElementsText(items) ==
            ElementText(items[0]) + if |items| == 1 then [] else [0x2C] + ElementsText(items[1..])
    ensures ValuesOf(items) == [Value(items[0].v)] + ValuesOf(items[1..])
  {}

  /** Behind space, an item starts, and it does not look like the end of the array. */
  lemma FirstItem(src: Source, i: nat, items: seq<Element>, depth: nat)
    requires items != [] && depth <= NESTING_LIMIT && IsElement(items[0], NESTING_LIMIT - depth, src.strtod)
    requires At(src.t, i, ElementsText(items))
    ensures SkipSpace(src.t, i) == i + |items[0].before| < |src.t| && src.t[i + |items[0].before|] != 0x5D
  {
    hide Text, ElementsText, SkipSpace, At, IsText, ValuesOf;
    ElementsTextIs(items);
    var e, t := items[0], src.t;
    AtConcat(t, i, ElementText(e), if |items| == 1 then [] else [0x2C] + ElementsText(items[1..]));
    AtThree(t, i, e.before, Text(e.v), e.after);
    FirstByte(e.v, NESTING_LIMIT - depth, src.strtod);
    BlankSkipped(t, i, e.before);
    AtByte(t, i + |e.before|, Text(e.v), 0);
    NotSpace(t, i + |e.before|);
  }

  /** A value with space around it is read, and what comes behind is the next token. */
  lemma {:induction false} ElementRead(src: Source, i: nat, e: Element, c: byte, depth: nat)
    requires depth <= NESTING_LIMIT && IsElement(e, NESTING_LIMIT - depth, src.strtod)
    requires At(src.t, i, ElementText(e) + [c]) && (c == 0x2C || c == 0x5D || c == 0x7D)
    ensures i + |ElementText(e)| + 1 <= |src.t|
    ensures SkipSpace(src.t, i) == i + |e.before|
    ensures var r := src.ReadValue(i + |e.before|, depth);
            && r.Read? && r.value == Value(e.v)
            && NextToken(src.t, r.next) == Token(c, SkipSpace(src.t, i + |ElementText(e)| + 1))
    decreases e, 4
  {
    hide Source.ReadValue, Text, SkipSpace, NextToken, At, IsText, Value, Blank;
    var t, x := src.t, Text(e.v);
    var p := i + |e.before|;
    ElementPieces(src, i, e, c, NESTING_LIMIT - depth);
    ValueRead(src, p, e.v, depth);
    TokenAt(t, p + |x|, e.after, c);
    SameToken(t, src.ReadValue(p, depth).next, p + |x|);
  }

  lemma ElementPieces(src: Source, i: nat, e: Element, c: byte, n: nat)
    requires IsElement(e, n, src.strtod)
    requires At(src.t, i, ElementText(e) + [c]) && (c == 0x2C || c == 0x5D || c == 0x7D)
    ensures var p := i + |e.before|;
            && At(src.t, p, Text(e.v)) && At(src.t, p + |Text(e.v)|, e.after + [c])
            && Delimited(src.t, p + |Text(e.v)|) && i <= |src.t| && SkipSpace(src.t, i) == p
            && p + |Text(e.v)| + |e.after| + 1 <= |src.t|
  {
    hide Text, SkipSpace, At, IsText, Blank;
    var t, x, p := src.t, Text(e.v), i + |e.before|;
    assert ElementText(e) + [c] == e.before + x + (e.after + [c]);
    AtThree(t, i, e.before, x, e.after + [c]);
    FirstByte(e.v, n, src.strtod);
    BlankSkipped(t, i, e.before);
    AtByte(t, p, x, 0);
    NotSpace(t, p);
    BehindValue(t, p + |x|, e.after, c);
  }

  lemma BehindValue(t: Bytes, i: nat, after: Bytes, c: byte)
    requires At(t, i, after + [c]) && Blank(after) && (c == 0x2C || c == 0x5D || c == 0x7D)
    ensures Delimited(t, i)
  {
    AtByte(t, i, after + [c], 0);
  }

  lemma {:induction false} ItemsRead(src: Source, i: nat, items: seq<Element>, depth: nat, vs: seq<Json>)
    requires items != [] && depth <= NESTING_LIMIT
    requires forall k :: 0 <= k < |items| ==> IsElement(items[k], NESTING_LIMIT - depth, src.strtod)
    requires At(src.t, i, ElementsText(items) + [0x5D])
    ensures i + |ElementsText(items)| + 1 <= |src.t|
    ensures src.ReadItems(SkipSpace(src.t, i), depth, vs) ==
            Read(Arr(vs + ValuesOf(items)), SkipSpace(src.t, i + |ElementsText(items)| + 1))
    decreases items, 5
  {
    hide Source.ReadValue, Source.ReadItems, SkipSpace, NextToken, ElementText, ElementsText, IsElement, At,
        ValuesOf, Value;
    var t, x, v := src.t, ElementText(items[0]), Value(items[0].v);
    ElementsTextThen(items, 0x5D, vs);
    assert IsElement(items[0], NESTING_LIMIT - depth, src.strtod);
    if |items| == 1 {
      ElementRead(src, i, items[0], 0x5D, depth);
      src.ItemsStep(i + |items[0].before|, depth, vs);
    } else {
      AtConcat(t, i, x + [0x2C], ElementsText(items[1..]) + [0x5D]);
      ElementRead(src, i, items[0], 0x2C, depth);
      src.ItemsStep(i + |items[0].before|, depth, vs);
      ItemsRead(src, i + |x| + 1, items[1..], depth, vs + [v]);
    }
  }

  lemma ElementsTextThen(items: seq<Element>, c: byte, vs: seq<Json>)
    requires items != []
    ensures var x, v := ElementText(items[0]), Value(items[0].v);
            if |items| == 1 then ElementsText(items) + [c] == x + [c] && vs + ValuesOf(items) == vs + [v]
            else
              && ElementsText(items) + [c] == (x + [0x2C]) + (ElementsText(items[1..]) + [c])
              && vs + [v] + ValuesOf(items[1..]) == vs + ValuesOf(items)
  {
    hide ElementText, ElementsText, Value, ValuesOf;
    ElementsTextIs(items);
    var v, rest := Value(items[0].v), ValuesOf(items[1..]);
    if |items| == 1 {
      NoItems();
      assert items[1..] == [];
      assert ElementText(items[0]) + [] == ElementText(items[0]);
      assert [v] + rest == [v];
    } else {
      Regrouped(ElementText(items[0]), [0x2C], ElementsText(items[1..]), [c]);
      ThreeValues(vs, v, rest);
    }
  }

  lemma Regrouped(a: Bytes, b: Bytes, c: Bytes, d: Bytes)
    ensures a + (b + c) + d == (a + b) + (c + d)
  {}

  lemma ThreeValues(vs: seq<Json>, v: Json, rest: seq<Json>)
    ensures vs + [v] + rest == vs + ([v] + rest)
  {}

  lemma {:induction false} ObjectRead(src: Source, i: nat, inner: Bytes, pairs: seq<Pair>, depth: nat)
    requires depth <= NESTING_LIMIT && IsText(Braced(inner, pairs), NESTING_LIMIT - depth, src.strtod)
    requires var x := inner + (PairsText(pairs) + [0x7D]); At(src.t, i, x)
    ensures i + |inner| + |PairsText(pairs)| + 1 <= |src.t|
    ensures src.ReadObject(i, depth) ==
            Read(Obj(Bound([], pairs)), SkipSpace(src.t, i + |inner| + |PairsText(pairs)| + 1))
    decreases pairs, 7
  {
    hide Source.ReadMembers, SkipSpace, NextToken, PairsText, At, Bound, IsPair;
    var t := src.t;
    AtConcat(t, i, inner, PairsText(pairs) + [0x7D]);
    BlankSkipped(t, i, inner);
    SameToken(t, i, i + |inner|);
    if pairs == [] {
      NoItems();
      assert PairsText(pairs) + [0x7D] == [] + [0x7D];
      TokenAt(t, i + |inner|, [], 0x7D);
      src.MembersEnd(NextToken(t, i), depth + 1, []);
    } else {
      PairsRead(src, i + |inner|, pairs, depth + 1, []);
    }
  }

  lemma PairsTextIs(pairs: seq<Pair>, ms: seq<Member>)
    requires pairs != []
    ensures PairsText(pairs) == PairText(pairs[0]) + if |pairs| == 1 then [] else [0x2C] + PairsText(pairs[1..])
    ensures Bound(ms, pairs) == Bound(Put(ms, PiecesValue(pairs[0].key), Value(pairs[0].value.v)), pairs[1..])
  {}

  /** A key with its colon. */
  lemma KeyRead(t: Bytes, i: nat, p: Pair)
    requires At(t, i, PairKeyText(p)) && Blank(p.before) && ArePieces(p.key) && Blank(p.gap)
    ensures i + |PairKeyText(p)| <= |t| && NextToken(t, i) == Token(0x22, i + |p.before| + 1)
    ensures var r := ReadString(t, i + |p.before| + 1, []);
            && r.Read? && r.value == PiecesValue(p.key)
            && NextToken(t, r.next) == Token(0x3A, SkipSpace(t, i + |PairKeyText(p)|))
  {
    hide SkipSpace, NextToken, ReadString, PiecesText, PiecesValue, At, ArePieces, Blank;
    var x := PiecesText(p.key) + [0x22];
    assert PairKeyText(p) == (p.before + [0x22]) + x + (p.gap + [0x3A]);
    AtThree(t, i, p.before + [0x22], x, p.gap + [0x3A]);
    QuoteAt(t, i, p.before);
    PiecesRead(t, i + |p.before| + 1, p.key, []);
    assert [] + PiecesValue(p.key) == PiecesValue(p.key);
    TokenAt(t, i + |p.before| + 1 + |x|, p.gap, 0x3A);
  }

  lemma {:induction false} PairRead(src: Source, i: nat, p: Pair, c: byte, depth: nat)
    requires depth <= NESTING_LIMIT && IsPair(p, NESTING_LIMIT - depth, src.strtod)
    requires At(src.t, i, PairText(p) + [c]) && (c == 0x2C || c == 0x7D)
    ensures i + |PairText(p)| + 1 <= |src.t| && NextToken(src.t, i) == Token(0x22, i + |p.before| + 1)
    ensures var r := src.ReadMember(i + |p.before| + 1, depth);
            && r.Read? && r.value == (PiecesValue(p.key), Value(p.value.v))
            && NextToken(src.t, r.next) == Token(c, SkipSpace(src.t, i + |PairText(p)| + 1))
    decreases p, 5
  {
    hide Source.ReadValue, SkipSpace, NextToken, ElementText, PairKeyText, ReadString, At, IsElement, ArePieces, Value,
        PiecesValue, Blank;
    var t, k := src.t, PairKeyText(p);
    assert PairText(p) + [c] == k + (ElementText(p.value) + [c]);
    AtConcat(t, i, k, ElementText(p.value) + [c]);
    KeyRead(t, i, p);
    ElementRead(src, i + |k|, p.value, c, depth);
  }

  lemma {:induction false} PairsRead(src: Source, i: nat, pairs: seq<Pair>, depth: nat, done: seq<Member>)
    requires pairs != [] && depth <= NESTING_LIMIT
    requires forall k :: 0 <= k < |pairs| ==> IsPair(pairs[k], NESTING_LIMIT - depth, src.strtod)
    requires At(src.t, i, PairsText(pairs) + [0x7D])
    ensures i + |PairsText(pairs)| + 1 <= |src.t| && NextToken(src.t, i).c == 0x22
    ensures src.ReadMembers(NextToken(src.t, i), depth, done) ==
            Read(Obj(Bound(done, pairs)), SkipSpace(src.t, i + |PairsText(pairs)| + 1))
    decreases pairs, 6
  {
    hide Source.ReadMember, Source.ReadMembers, SkipSpace, NextToken, PairText, PairsText, IsPair, At, Bound, Value,
        PiecesValue, Put;
    var t, x := src.t, PairText(pairs[0]);
    PairsTextIs(pairs, done);
    if |pairs| == 1 {
      assert PairsText(pairs) + [0x7D] == x + [0x7D];
      PairRead(src, i, pairs[0], 0x7D, depth);
      src.MembersStep(NextToken(t, i), depth, done);
      assert pairs[1..] == [];
      NothingBound(Put(done, PiecesValue(pairs[0].key), Value(pairs[0].value.v)));
    } else {
      var rest, j := PairsText(pairs[1..]) + [0x7D], i + |x| + 1;
      assert PairsText(pairs) + [0x7D] == (x + [0x2C]) + rest;
      AtConcat(t, i, x + [0x2C], rest);
      PairRead(src, i, pairs[0], 0x2C, depth);
      src.MembersStep(NextToken(t, i), depth, done);
      SkipSpaceTwice(t, j);
      SameToken(t, SkipSpace(t, j), j);
      PairsRead(src, j, pairs[1..], depth, Put(done, PiecesValue(pairs[0].key), Value(pairs[0].value.v)));
    }
  }

  lemma NothingBound(ms: seq<Member>)
    ensures Bound(ms, []) == ms
  {}

  // ---------------------------------------------------------------------
  // Documents
  // ---------------------------------------------------------------------

  /** The document behind its first token. */
  lemma RootRead(src: Source, i: nat, s: Tree)
    requires (s.Bracketed? || s.Braced?) && IsText(s, NESTING_LIMIT, src.strtod) && At(src.t, i, Text(s))
    ensures i + |Text(s)| <= |src.t|
    ensures var token := NextToken(src.t, i);
            && token.c == (if s.Bracketed? then 0x5B else 0x7B)
            && (if s.Bracketed? then src.ReadArray(token.next, 0) else src.ReadObject(token.next, 0)) ==
               Read(Value(s), SkipSpace(src.t, i + |Text(s)|))
  {
    hide ElementsText, PairsText, NextToken, SkipSpace, Source.ReadArray, Source.ReadObject, At, ValuesOf, Bound,
        IsElement, IsPair;
    var t, c: byte := src.t, if s.Bracketed? then 0x5B else 0x7B;
    var x := s.inner + (if s.Bracketed? then ElementsText(s.items) + [0x5D] else PairsText(s.pairs) + [0x7D]);
    assert Text(s) == [] + [c] + x;
    AtConcat(t, i, [] + [c], x);
    TokenAt(t, i, [], c);
    if s.Bracketed? {
      ArrayRead(src, i + 1, s.inner, s.items, 0);
    } else {
      ObjectRead(src, i + 1, s.inner, s.pairs, 0);
    }
    SpaceInFront(src, i + 1, 0);
  }

  lemma SpaceInFront(src: Source, i: nat, depth: nat)
    requires i <= |src.t| && depth < NESTING_LIMIT
    ensures src.ReadArray(SkipSpace(src.t, i), depth) == src.ReadArray(i, depth)
    ensures src.ReadObject(SkipSpace(src.t, i), depth) == src.ReadObject(i, depth)
  {
    hide Source.ReadItems, Source.ReadMembers, SkipSpace, NextToken;
    SkipSpaceTwice(src.t, i);
    SameToken(src.t, SkipSpace(src.t, i), i);
  }

  /**
    Every JSON text of an array or an object nested at most 1024 deep, behind a byte order
    mark or without one, with space around it, is read as the value it stands for.
   */
  lemma DocumentRead(src: Source, mark: bool, before: Bytes, s: Tree, after: Bytes)
    requires (s.Bracketed? || s.Braced?) && IsText(s, 1024, src.strtod)
    requires forall k :: 0 <= k < |before| ==> before[k] in {0x20, 0x09, 0x0A, 0x0D}
    requires forall k :: 0 <= k < |after| ==> after[k] in {0x20, 0x09, 0x0A, 0x0D}
    requires src.t == (if mark then [0xEF, 0xBB, 0xBF] else []) + before + Text(s) + after
    ensures src.ReadDocument() == Read(Value(s), |src.t|)
  {
    hide Text, Source.ReadDocument, IsText, Value;
    assert Blank(before) && Blank(after);
    MarkedDocumentRead(src, mark, before, s, after);
  }

  lemma MarkedDocumentRead(src: Source, mark: bool, before: Bytes, s: Tree, after: Bytes)
    requires (s.Bracketed? || s.Braced?) && IsText(s, 1024, src.strtod) && Blank(before) && Blank(after)
    requires src.t == (if mark then [0xEF, 0xBB, 0xBF] else []) + before + Text(s) + after
    ensures src.ReadDocument() == Read(Value(s), |src.t|)
  {
    hide Text, Source.ReadDocument, Source.AfterBOM, IsText, Value, Blank, At;
    DocumentPieces(src, mark, before, Text(s), after);
    MarkSkipped(src, mark, before, s, after);
    DocumentAt(src, if mark then 3 else 0, before, s, after);
  }

  lemma DocumentAt(src: Source, m: nat, before: Bytes, s: Tree, after: Bytes)
    requires (s.Bracketed? || s.Braced?) && IsText(s, NESTING_LIMIT, src.strtod) && Blank(before) && Blank(after)
    requires m == src.AfterBOM() && At(src.t, m, before) && At(src.t, m + |before|, Text(s))
    requires var e := m + |before| + |Text(s)|; At(src.t, e, after) && |src.t| == e + |after|
    ensures src.ReadDocument() == Read(Value(s), |src.t|)
  {
    hide Text, NextToken, SkipSpace, Source.ReadArray, Source.ReadObject, Source.ReadDocument, Source.AfterBOM,
        IsText, Value, Blank, At;
    var t, e := src.t, m + |before| + |Text(s)|;
    BlankSkipped(t, m, before);
    SameToken(t, m, m + |before|);
    RootRead(src, m + |before|, s);
    BlankSkipped(t, e, after);
    SkipSpaceTwice(t, e);
    NothingLeft(t);
    DocumentStep(src);
  }

  lemma DocumentStep(src: Source)
    ensures var token := NextToken(src.t, src.AfterBOM());
            token.c == 0x5B || token.c == 0x7B ==>
              var r := if token.c == 0x5B then src.ReadArray(token.next, 0) else src.ReadObject(token.next, 0);
              r.Read? && SkipSpace(src.t, r.next) == |src.t| ==> src.ReadDocument() == Read(r.value, |src.t|)
  {
    hide NextToken, SkipSpace, Source.ReadArray, Source.ReadObject, Source.AfterBOM;
  }

  lemma DocumentPieces(src: Source, mark: bool, before: Bytes, x: Bytes, after: Bytes)
    requires src.t == (if mark then [0xEF, 0xBB, 0xBF] else []) + before + x + after
    ensures var m := if mark then 3 else 0;
            && At(src.t, m, before) && At(src.t, m + |before|, x) && At(src.t, m + |before| + |x|, after)
            && |src.t| == m + |before| + |x| + |after|
  {}

  lemma MarkSkipped(src: Source, mark: bool, before: Bytes, s: Tree, after: Bytes)
    requires (s.Bracketed? || s.Braced?) && Blank(before)
    requires src.t == (if mark then [0xEF, 0xBB, 0xBF] else []) + before + Text(s) + after
    ensures src.AfterBOM() == if mark then 3 else 0
  {
    if !mark {
      assert src.t[0] == if before == [] then Text(s)[0] else before[0];
    } else {
      assert src.t[0] == 0xEF && src.t[1] == 0xBB && src.t[2] == 0xBF && Text(s) != [];
    }
  }

  lemma NothingLeft(t: Bytes)
    ensures SkipSpace(t, |t|) == |t|
  {}
}
