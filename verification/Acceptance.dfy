/**
  The parser accepts nothing but JSON texts, with leniency in numbers only: whatever is
  read as a document is the text of a tree that stands for that document.
 */
module Acceptance {
  import opened Bytes
  import opened Numbers
  import opened Json
  import opened Reader
  import opened Grammar
  import opened Syntax

  /** A number of the grammar, but that each of its parts may lack its digits. */
  ghost predicate IsLooseNumber(x: Bytes) {
    exists sign, ds, frac, exp ::
      && x == sign + ds + (frac + exp) && (sign == [] || sign == [0x2D]) && (ds == [] || IsInteger(ds))
      && (frac == [] || IsFraction(frac)) && (exp == [] || IsExponent(exp))
  }

  ghost predicate IsLoose(s: Tree, n: nat)
    decreases s, 0
  {
    match s
    case Numeral(x, v) => IsLooseNumber(x)
    case Quoted(ps) => ArePieces(ps)
    case Bracketed(inner, items) =>
      n > 0 && Blank(inner) && forall k :: 0 <= k < |items| ==> IsLooseElement(items[k], n - 1)
    case Braced(inner, pairs) =>
      n > 0 && Blank(inner) && forall k :: 0 <= k < |pairs| ==> IsLoosePair(pairs[k], n - 1)
    case _ => true
  }

  ghost predicate IsLooseElement(e: Element, n: nat)
    decreases e, 1
  {
    Blank(e.before) && Blank(e.after) && IsLoose(e.v, n)
  }

  ghost predicate IsLoosePair(p: Pair, n: nat)
    decreases p, 2
  {
    Blank(p.before) && ArePieces(p.key) && Blank(p.gap) && IsLooseElement(p.value, n)
  }

  // ---------------------------------------------------------------------
  // Space and tokens
  // ---------------------------------------------------------------------

  /** The space that has been skipped. */
  lemma SpaceThere(t: Bytes, i: nat)
    requires i <= |t|
    ensures var j := SkipSpace(t, i); Blank(t[i..j]) && At(t, i, t[i..j])
  {
    hide SkipSpace;
    var j := SkipSpace(t, i);
    forall k | 0 <= k < j - i
      ensures IsBlank(t[i..j][k])
    {
      assert t[i..j][k] == t[i + k] && IsSpace(t[i + k]);
    }
  }

  lemma AtOne(t: Bytes, i: nat)
    requires i < |t|
    ensures At(t, i, [t[i]])
  {}

  /** A structural character or a quote comes behind nothing but space. */
  lemma TokenThere(t: Bytes, i: nat)
    requires i <= |t| && NextToken(t, i).c != 0
    ensures var c, j := NextToken(t, i).c, SkipSpace(t, i);
            && j < |t| && t[j] == c && Blank(t[i..j]) && At(t, i, t[i..j] + [c])
            && NextToken(t, i).next == if c == 0x22 then j + 1 else SkipSpace(t, j + 1)
  {
    hide SkipSpace;
    var j := SkipSpace(t, i);
    SpaceThere(t, i);
    AtOne(t, j);
    JoinedAt(t, i, t[i..j], [t[j]]);
  }

  // ---------------------------------------------------------------------
  // Strings
  // ---------------------------------------------------------------------

  function HexFrom(c: byte): (h: Hex)
    requires HexDigit(c).Some?
    ensures HexText(h) == c && h.d == HexDigit(c).value
  {
    Hex(HexDigit(c).value, 0x41 <= c <= 0x46)
  }

  lemma FourDigitsThere(t: Bytes, i: nat)
    requires i + 4 <= |t| && HexDigits(t, i, 4, 0).Read?
    ensures forall k :: i <= k < i + 4 ==> HexDigit(t[k]).Some?
  {
    hide HexDigit;
    var a := HexDigit(t[i]).value;
    assert HexDigits(t, i + 1, 3, a).Read?;
    var b := 16 * a + HexDigit(t[i + 1]).value;
    assert HexDigits(t, i + 2, 2, b).Read?;
    var c := 16 * b + HexDigit(t[i + 2]).value;
    assert HexDigits(t, i + 3, 1, c).Read?;
  }

  lemma EscapeParsed(t: Bytes, i: nat) returns (p: Piece)
    requires i + 1 < |t| && t[i] == 0x5C && ReadEscape(t, i + 1).Read?
    ensures var r := ReadEscape(t, i + 1);
            && IsPiece(p) && At(t, i, PieceText(p)) && r.next == i + |PieceText(p)| && r.value == PieceValue(p)
  {
    hide HexDigits, HexDigit, Utf8;
    if t[i + 1] != 0x75 {
      p := Escape(t[i + 1]);
    } else {
      FourDigitsThere(t, i + 2);
      p := Unicode(HexFrom(t[i + 2]), HexFrom(t[i + 3]), HexFrom(t[i + 4]), HexFrom(t[i + 5]));
      FourDigitsValue(t, i + 2);
      assert t[i..i + 6] == PieceText(p);
    }
  }

  lemma {:induction false} PiecesParsed(t: Bytes, i: nat, before: Bytes) returns (ps: seq<Piece>)
    requires i <= |t| && ReadString(t, i, before).Read?
    ensures var r := ReadString(t, i, before);
            && ArePieces(ps) && At(t, i, PiecesText(ps) + [0x22])
            && r.value == before + PiecesValue(ps) && r.next == i + |PiecesText(ps)| + 1
    decreases |t| - i
  {
    hide PieceText, PieceValue, IsPiece, At, ReadEscape;
    if t[i] == 0x22 {
      ps := [];
      AtOne(t, i);
      assert PiecesText(ps) + [0x22] == [0x22] && before + PiecesValue(ps) == before;
    } else {
      var p;
      if t[i] == 0x5C {
        p := EscapeParsed(t, i);
      } else {
        p := Plain(t[i]);
        PlainPiece(t, i);
      }
      var j := i + |PieceText(p)|;
      var rest := PiecesParsed(t, j, before + PieceValue(p));
      ps := [p] + rest;
      assert ps[1..] == rest;
      JoinedAt(t, i, PieceText(p), PiecesText(rest) + [0x22]);
      assert PieceText(p) + (PiecesText(rest) + [0x22]) == PiecesText(ps) + [0x22];
      assert before + PieceValue(p) + PiecesValue(rest) == before + PiecesValue(ps);
    }
  }

  lemma PlainPiece(t: Bytes, i: nat)
    requires i < |t| && t[i] != 0x22 && t[i] != 0x5C
    ensures var p := Plain(t[i]);
            IsPiece(p) && At(t, i, PieceText(p)) && |PieceText(p)| == 1 && PieceValue(p) == [t[i]]
  {}

  // ---------------------------------------------------------------------
  // Scalars
  // ---------------------------------------------------------------------

  lemma NumberParsed(t: Bytes, i: nat)
    requires i <= |t|
    ensures IsLooseNumber(t[i..NumberEnd(t, i)]) && At(t, i, t[i..NumberEnd(t, i)])
  {
    hide IntegerEnd, FractionEnd, ExponentEnd, IsFraction, IsExponent, IsInteger;
    var a := if Next(t, i, MINUS) then i + 1 else i;
    var b := IntegerEnd(t, i);
    var c := FractionEnd(t, b);
    var e := ExponentEnd(t, c);
    IntegerThere(t, i);
    FractionThere(t, b);
    ExponentThere(t, c);
    FourSlices(t, i, a, b, c, e);
  }

  lemma FourSlices(t: Bytes, i: nat, a: nat, b: nat, c: nat, e: nat)
    requires i <= a <= b <= c <= e <= |t|
    ensures t[i..e] == t[i..a] + t[a..b] + (t[b..c] + t[c..e]) && At(t, i, t[i..e])
  {}

  lemma IntegerThere(t: Bytes, i: nat)
    requires i <= |t|
    ensures var a := if Next(t, i, MINUS) then i + 1 else i;
            && a <= IntegerEnd(t, i) && (t[i..a] == [] || t[i..a] == [0x2D])
            && (t[a..IntegerEnd(t, i)] == [] || IsInteger(t[a..IntegerEnd(t, i)]))
  {}

  lemma FractionThere(t: Bytes, i: nat)
    requires i <= |t|
    ensures var x := t[i..FractionEnd(t, i)]; x == [] || IsFraction(x)
  {
    if Next(t, i, POINT) {
      var x := t[i..FractionEnd(t, i)];
      assert x[0] == t[i] && x[1..] == t[i + 1..DigitsEnd(t, i + 1)];
    }
  }

  lemma ExponentThere(t: Bytes, i: nat)
    requires i <= |t|
    ensures var x := t[i..ExponentEnd(t, i)]; x == [] || IsExponent(x)
  {
    hide DigitsEnd, AreDigits;
    if Next(t, i, 0x65) || Next(t, i, 0x45) {
      var x := t[i..ExponentEnd(t, i)];
      assert x[0] == t[i];
      if Next(t, i + 1, MINUS) || Next(t, i + 1, PLUS) {
        DigitsThere(t, i + 2);
        assert x[1] == t[i + 1] && x[2..] == t[i + 2..DigitsEnd(t, i + 2)];
      } else {
        DigitsThere(t, i + 1);
        assert x[1..] == t[i + 1..DigitsEnd(t, i + 1)];
      }
    }
  }

  lemma DigitsThere(t: Bytes, i: nat)
    requires i <= |t|
    ensures AreDigits(t[i..DigitsEnd(t, i)])
  {}

  lemma {:induction false} NameThere(t: Bytes, i: nat, tail: Bytes)
    requires i + |tail| <= |t| && MatchEnd(t, i, tail).Read?
    ensures At(t, i, tail)
    decreases |tail|
  {
    if tail != [] {
      NameThere(t, i + 1, tail[1..]);
      AtOne(t, i);
      JoinedAt(t, i, [t[i]], tail[1..]);
      assert [t[i]] + tail[1..] == tail;
    }
  }

  lemma LiteralParsed(t: Bytes, i: nat, c: byte, tail: Bytes, v: Json)
    requires i < |t| && t[i] == c && ReadLiteral(t, i + 1, tail, v).Read?
    ensures At(t, i, [c] + tail) && ReadLiteral(t, i + 1, tail, v) == Read(v, i + 1 + |tail|)
  {
    NameThere(t, i + 1, tail);
    AtOne(t, i);
    JoinedAt(t, i, [c], tail);
  }

  /** The tree `s` has been read at `i`, up to space in front of `next`. */
  ghost predicate Parsed(t: Bytes, i: nat, s: Tree, v: Json, next: nat, n: nat) {
    && IsLoose(s, n) && Value(s) == v && At(t, i, Text(s))
    && i + |Text(s)| <= next <= |t| && Blank(t[i + |Text(s)|..next])
  }

  lemma ScalarParsed(t: Bytes, i: nat, s: Tree, v: Json, n: nat)
    requires IsLoose(s, n) && Value(s) == v && At(t, i, Text(s))
    ensures Parsed(t, i, s, v, i + |Text(s)|, n)
  {
    hide IsLoose, Value, Text;
    assert t[i + |Text(s)|..i + |Text(s)|] == [];
  }

  // ---------------------------------------------------------------------
  // Values
  // ---------------------------------------------------------------------

  lemma {:induction false} ValueParsed(src: Source, i: nat, depth: nat) returns (s: Tree)
    requires i <= |src.t| && depth <= NESTING_LIMIT && src.ReadValue(i, depth).Read?
    ensures var r := src.ReadValue(i, depth); Parsed(src.t, i, s, r.value, r.next, NESTING_LIMIT - depth)
    decreases |src.t| - i, 3
  {
    hide ReadString, ReadLiteral, Source.ReadNumber, Source.ReadArray, Source.ReadObject, At, Parsed, IsLooseNumber,
        PiecesText, PiecesValue, ArePieces, Blank;
    var t := src.t;
    if i == |t| {
      s := NumberRead(src, i, depth);
    } else if t[i] == 0x6E {
      LiteralParsed(t, i, 0x6E, NULL_TAIL, Null);
      s := NullName;
      assert [0x6E] + NULL_TAIL == Text(s);
      ScalarParsed(t, i, s, Null, NESTING_LIMIT - depth);
    } else if t[i] == 0x74 {
      LiteralParsed(t, i, 0x74, TRUE_TAIL, Bool(true));
      s := TrueName;
      assert [0x74] + TRUE_TAIL == Text(s);
      ScalarParsed(t, i, s, Bool(true), NESTING_LIMIT - depth);
    } else if t[i] == 0x66 {
      LiteralParsed(t, i, 0x66, FALSE_TAIL, Bool(false));
      s := FalseName;
      assert [0x66] + FALSE_TAIL == Text(s);
      ScalarParsed(t, i, s, Bool(false), NESTING_LIMIT - depth);
    } else if t[i] == 0x22 {
      var ps := PiecesParsed(t, i + 1, []);
      s := Quoted(ps);
      AtOne(t, i);
      JoinedAt(t, i, [0x22], PiecesText(ps) + [0x22]);
      assert [] + PiecesValue(ps) == PiecesValue(ps);
      ScalarParsed(t, i, s, Str(PiecesValue(ps)), NESTING_LIMIT - depth);
    } else if t[i] == 0x5B {
      s := ArrayParsed(src, i, depth);
    } else if t[i] == 0x7B {
      s := ObjectParsed(src, i, depth);
    } else {
      s := NumberRead(src, i, depth);
    }
  }

  lemma NumberRead(src: Source, i: nat, depth: nat) returns (s: Tree)
    requires i <= |src.t| && depth <= NESTING_LIMIT && src.ReadNumber(i).Read?
    ensures var r := src.ReadNumber(i); Parsed(src.t, i, s, r.value, r.next, NESTING_LIMIT - depth)
  {
    hide NumberEnd, IntegerEnd, StrToLL, Canonical, At, Parsed, IsLooseNumber;
    var e := NumberEnd(src.t, i);
    NumberParsed(src.t, i);
    s := Numeral(src.t[i..e], src.ReadNumber(i).value.n);
    ScalarParsed(src.t, i, s, src.ReadNumber(i).value, NESTING_LIMIT - depth);
  }

  /** An array with its opening bracket at `i`. */
  lemma {:induction false} ArrayParsed(src: Source, i: nat, depth: nat) returns (s: Tree)
    requires i < |src.t| && src.t[i] == 0x5B && depth <= NESTING_LIMIT && src.ReadArray(i + 1, depth).Read?
    ensures s.Bracketed?
    ensures var r := src.ReadArray(i + 1, depth);
            && Parsed(src.t, i, s, r.value, r.next, NESTING_LIMIT - depth)
            && r.next == SkipSpace(src.t, i + |Text(s)|)
    decreases |src.t| - i, 2
  {
    hide SkipSpace, Source.ReadItems, At, Parsed, Blank, IsLooseElement, ElementsText, ValuesOf, NextToken;
    var t, j := src.t, SkipSpace(src.t, i + 1);
    SpaceThere(t, i + 1);
    var items: seq<Element> := [];
    NoItems();
    if t[j] == 0x5D {
      AtOne(t, j);
      TokenHere(t, j, 0x5D);
      assert [] + [0x5D] == [0x5D];
    } else {
      items := ItemsParsed(src, j, depth + 1, []);
      assert [] + ValuesOf(items) == ValuesOf(items);
    }
    s := Bracketed(t[i + 1..j], items);
    BracketsJoined(t, i, t[i + 1..j], ElementsText(items) + [0x5D]);
    ContainerParsed(t, i, s, Arr(ValuesOf(items)), NESTING_LIMIT - depth);
  }

  lemma BracketsJoined(t: Bytes, i: nat, inner: Bytes, x: Bytes)
    requires i < |t| && At(t, i + 1, inner) && At(t, i + 1 + |inner|, x)
    ensures At(t, i, [t[i]] + (inner + x))
  {
    JoinedAt(t, i + 1, inner, x);
    AtOne(t, i);
    JoinedAt(t, i, [t[i]], inner + x);
  }

  lemma TokenHere(t: Bytes, j: nat, c: byte)
    requires j < |t| && t[j] == c && (c == 0x5D || c == 0x7D)
    ensures NextToken(t, j).next == SkipSpace(t, j + 1)
  {}

  lemma ContainerParsed(t: Bytes, i: nat, s: Tree, v: Json, n: nat)
    requires IsLoose(s, n) && Value(s) == v && At(t, i, Text(s))
    ensures i + |Text(s)| <= |t| && Parsed(t, i, s, v, SkipSpace(t, i + |Text(s)|), n)
  {
    hide IsLoose, Value, Text, SkipSpace, Blank;
    SpaceThere(t, i + |Text(s)|);
  }

  /** What has been read behind space belongs behind that space. */
  function Behind(space: Bytes, items: seq<Element>): (r: seq<Element>)
    requires items != []
    ensures |r| == |items|
  {
    [Element(space + items[0].before, items[0].v, items[0].after)] + items[1..]
  }

  lemma BehindText(space: Bytes, items: seq<Element>)
    requires items != []
    ensures ElementsText(Behind(space, items)) == space + ElementsText(items)
    ensures ValuesOf(Behind(space, items)) == ValuesOf(items)
  {
    hide Text, Value, ElementsText, ValuesOf;
    ElementsTextIs(items);
    ElementsTextIs(Behind(space, items));
    var e, rest := items[0], if |items| == 1 then [] else [0x2C] + ElementsText(items[1..]);
    assert Behind(space, items)[1..] == items[1..];
    assert (space + e.before) + Text(e.v) + e.after + rest == space + (e.before + Text(e.v) + e.after + rest);
  }

  lemma {:induction false} ItemsParsed(src: Source, i: nat, depth: nat, vs: seq<Json>) returns (items: seq<Element>)
    requires i <= |src.t| && depth <= NESTING_LIMIT && src.ReadItems(i, depth, vs).Read?
    ensures items != [] && items[0].before == []
    ensures forall k :: 0 <= k < |items| ==> IsLooseElement(items[k], NESTING_LIMIT - depth)
    ensures At(src.t, i, ElementsText(items) + [0x5D]) && i + |ElementsText(items)| + 1 <= |src.t|
    ensures src.ReadItems(i, depth, vs) ==
            Read(Arr(vs + ValuesOf(items)), SkipSpace(src.t, i + |ElementsText(items)| + 1))
    decreases |src.t| - i, 4
  {
    hide SkipSpace, NextToken, Source.ReadValue, Source.ReadItems, At, Blank, ElementsText, ValuesOf, IsLoose, Text,
        Value;
    var t := src.t;
    src.ItemsStep(i, depth, vs);
    var r := src.ReadValue(i, depth);
    var s := ValueParsed(src, i, depth);
    var token := NextToken(t, r.next);
    var after := TokenBehind(t, i + |Text(s)|, r.next);
    var e := Element([], s, after);
    ElementThere(t, i, e, token.c, NESTING_LIMIT - depth);
    if token.c == 0x5D {
      items := [e];
      OneElement(e, vs);
    } else {
      var p := i + |ElementText(e)| + 1;
      SpaceThere(t, p);
      var more := ItemsParsed(src, token.next, depth, vs + [r.value]);
      items := [e] + Behind(t[p..token.next], more);
      ElementsJoined(t, i, e, t[p..token.next], more, vs);
      JoinedLoose(e, t[p..token.next], more, NESTING_LIMIT - depth);
    }
  }

  /** An item, the comma behind it, space, and the items behind that. */
  lemma ElementsJoined(t: Bytes, i: nat, e: Element, space: Bytes, more: seq<Element>, vs: seq<Json>)
    requires more != []
    requires At(t, i, ElementText(e) + [0x2C]) && At(t, i + |ElementText(e)| + 1, space)
    requires At(t, i + |ElementText(e)| + 1 + |space|, ElementsText(more) + [0x5D])
    ensures var items := [e] + Behind(space, more);
            && At(t, i, ElementsText(items) + [0x5D]) && i + |ElementsText(items)| + 1 <= |t|
            && |ElementsText(items)| == |ElementText(e)| + 1 + |space| + |ElementsText(more)|
            && vs + ValuesOf(items) == vs + [Value(e.v)] + ValuesOf(more)
  {
    hide *;
    var x, y, rest := ElementText(e), ElementsText(more), Behind(space, more);
    BehindText(space, more);
    assert ElementsText(rest) == space + y;
    SpaceAndText(t, i + |x| + 1, space, y);
    MoreElements(e, rest, vs);
    TextsJoined(t, i, x, space + y, ElementsText([e] + rest));
  }

  lemma TextsJoined(t: Bytes, i: nat, x: Bytes, y: Bytes, z: Bytes)
    requires At(t, i, x + [0x2C]) && At(t, i + |x| + 1, y + [0x5D])
    requires z + [0x5D] == (x + [0x2C]) + (y + [0x5D])
    ensures At(t, i, z + [0x5D]) && i + |z| + 1 <= |t|
  {
    JoinedAt(t, i, x + [0x2C], y + [0x5D]);
  }

  lemma JoinedLoose(e: Element, space: Bytes, more: seq<Element>, n: nat)
    requires more != [] && more[0].before == [] && Blank(space) && IsLooseElement(e, n)
    requires forall k :: 0 <= k < |more| ==> IsLooseElement(more[k], n)
    ensures var items := [e] + Behind(space, more);
            forall k :: 0 <= k < |items| ==> IsLooseElement(items[k], n)
  {
    hide *;
    BehindLoose(space, more, n);
    AllLoose(e, Behind(space, more), n);
  }

  lemma SpaceAndText(t: Bytes, i: nat, space: Bytes, x: Bytes)
    requires At(t, i, space) && At(t, i + |space|, x + [0x5D])
    ensures At(t, i, (space + x) + [0x5D])
  {
    JoinedAt(t, i, space, x + [0x5D]);
    assert space + (x + [0x5D]) == (space + x) + [0x5D];
  }

  lemma AllLoose(e: Element, rest: seq<Element>, n: nat)
    requires IsLooseElement(e, n) && forall k :: 0 <= k < |rest| ==> IsLooseElement(rest[k], n)
    ensures forall k :: 0 <= k < |[e] + rest| ==> IsLooseElement(([e] + rest)[k], n)
  {
    hide IsLooseElement;
    forall k | 0 <= k < |[e] + rest|
      ensures IsLooseElement(([e] + rest)[k], n)
    {
      if k > 0 {
        assert ([e] + rest)[k] == rest[k - 1];
      }
    }
  }

  lemma BehindLoose(space: Bytes, items: seq<Element>, n: nat)
    requires items != [] && items[0].before == [] && Blank(space)
    requires forall k :: 0 <= k < |items| ==> IsLooseElement(items[k], n)
    ensures forall k :: 0 <= k < |items| ==> IsLooseElement(Behind(space, items)[k], n)
  {
    hide IsLoose;
    assert space + [] == space;
    assert IsLooseElement(items[0], n);
  }

  lemma ElementThere(t: Bytes, i: nat, e: Element, c: byte, n: nat)
    requires e.before == [] && IsLoose(e.v, n) && Blank(e.after)
    requires At(t, i, Text(e.v)) && At(t, i + |Text(e.v)|, e.after + [c])
    ensures IsLooseElement(e, n) && At(t, i, ElementText(e) + [c]) && i + |ElementText(e)| + 1 <= |t|
  {
    hide IsLoose, Text;
    JoinedAt(t, i, Text(e.v), e.after + [c]);
    assert Text(e.v) + (e.after + [c]) == ElementText(e) + [c];
  }

  lemma OneElement(e: Element, vs: seq<Json>)
    ensures ElementsText([e]) == ElementText(e) && vs + ValuesOf([e]) == vs + [Value(e.v)]
  {
    hide ElementText, Value;
    assert [e][1..] == [];
  }

  lemma MoreElements(e: Element, rest: seq<Element>, vs: seq<Json>)
    requires rest != []
    ensures ElementsText([e] + rest) + [0x5D] == (ElementText(e) + [0x2C]) + (ElementsText(rest) + [0x5D])
    ensures |ElementsText([e] + rest)| == |ElementText(e)| + 1 + |ElementsText(rest)|
    ensures vs + ValuesOf([e] + rest) == vs + [Value(e.v)] + ValuesOf(rest)
  {
    hide ElementText, Value, ElementsText, ValuesOf;
    assert ([e] + rest)[1..] == rest;
    ElementsTextIs([e] + rest);
    Regrouped(ElementText(e), [0x2C], ElementsText(rest), [0x5D]);
    ThreeValues(vs, Value(e.v), ValuesOf(rest));
  }

  /** Space behind a value, up to the next token, some of which has been skipped already. */
  lemma TokenBehind(t: Bytes, i: nat, next: nat) returns (after: Bytes)
    requires i <= next <= |t| && Blank(t[i..next]) && NextToken(t, next).c != 0
    ensures var c := NextToken(t, next).c;
            && Blank(after) && At(t, i, after + [c]) && i + |after| + 1 <= |t|
            && (c != 0x22 ==> NextToken(t, next).next == SkipSpace(t, i + |after| + 1))
  {
    hide SkipSpace, NextToken, At;
    TokenThere(t, next);
    var j := SkipSpace(t, next);
    after := t[i..next] + t[next..j];
    BlankBoth(t[i..next], t[next..j]);
    Slices(t, i, next);
    JoinedAt(t, i, t[i..next], t[next..j] + [t[j]]);
    assert t[i..next] + (t[next..j] + [t[j]]) == after + [t[j]];
  }

  lemma Slices(t: Bytes, i: nat, j: nat)
    requires i <= j <= |t|
    ensures At(t, i, t[i..j])
  {}

  lemma BlankBoth(a: Bytes, b: Bytes)
    requires Blank(a) && Blank(b)
    ensures Blank(a + b)
  {}

  /** An object with its opening brace at `i`. */
  lemma {:induction false} ObjectParsed(src: Source, i: nat, depth: nat) returns (s: Tree)
    requires i < |src.t| && src.t[i] == 0x7B && depth <= NESTING_LIMIT && src.ReadObject(i + 1, depth).Read?
    ensures s.Braced?
    ensures var r := src.ReadObject(i + 1, depth);
            && Parsed(src.t, i, s, r.value, r.next, NESTING_LIMIT - depth)
            && r.next == SkipSpace(src.t, i + |Text(s)|)
    decreases |src.t| - i, 2
  {
    hide SkipSpace, NextToken, Source.ReadMembers, At, Parsed, Blank, IsLoosePair, PairsText, Bound;
    var t := src.t;
    var inner, pairs := MembersParsed(src, i + 1, depth + 1, []);
    var x := PairsText(pairs) + [0x7D];
    s := Braced(inner, pairs);
    AtOne(t, i);
    JoinedAt(t, i, [0x7B], inner + x);
    ContainerParsed(t, i, s, Obj(Bound([], pairs)), NESTING_LIMIT - depth);
  }

  /** The members from `i` on; if there are none, the space in front of the closing brace. */
  lemma {:induction false} MembersParsed(src: Source, i: nat, depth: nat, ms: seq<Member>)
    returns (inner: Bytes, pairs: seq<Pair>)
    requires i <= |src.t| && depth <= NESTING_LIMIT && src.ReadMembers(NextToken(src.t, i), depth, ms).Read?
    ensures Blank(inner) && (pairs != [] ==> inner == [])
    ensures NextToken(src.t, i).c != 0x7D ==> pairs != []
    ensures forall k :: 0 <= k < |pairs| ==> IsLoosePair(pairs[k], NESTING_LIMIT - depth)
    ensures var x := inner + (PairsText(pairs) + [0x7D]);
            && At(src.t, i, x) && i + |x| <= |src.t|
            && src.ReadMembers(NextToken(src.t, i), depth, ms) ==
               Read(Obj(Bound(ms, pairs)), SkipSpace(src.t, i + |x|))
    decreases |src.t| - i, 5
  {
    hide SkipSpace, NextToken, Source.ReadMember, Source.ReadMembers, At, Blank, PairsText, Bound, Put, IsLoosePair;
    var t, token := src.t, NextToken(src.t, i);
    NoItems();
    NothingBound(ms);
    if token.c != 0x22 {
      src.MembersEnd(token, depth, ms);
      inner := TokenBehindSpace(t, i);
      pairs := [];
      assert [] + [0x7D] == [0x7D];
    } else {
      inner := [];
      src.MembersStep(token, depth, ms);
      var p, c := PairParsed(src, i, depth);
      var m := src.ReadMember(token.next, depth).value;
      var next := NextToken(t, src.ReadMember(token.next, depth).next);
      EmptyBlank();
      if c == 0x7D {
        pairs := [p];
        OnePair(p, ms);
      } else {
        var j := i + |PairText(p)| + 1;
        SkipSpaceTwice(t, j);
        SameToken(t, next.next, j);
        var sp, rest := MembersParsed(src, j, depth, Put(ms, m.0, m.1));
        pairs := [p] + rest;
        PairsJoined(t, i, p, rest, ms);
      }
    }
  }

  lemma EmptyBlank()
    ensures Blank([])
  {}

  lemma TokenBehindSpace(t: Bytes, i: nat) returns (space: Bytes)
    requires i <= |t| && NextToken(t, i).c != 0
    ensures var c := NextToken(t, i).c;
            && Blank(space) && At(t, i, space + [c]) && i + |space| + 1 <= |t|
            && (if c == 0x22 then NextToken(t, i).next == i + |space| + 1
                else NextToken(t, i).next == SkipSpace(t, i + |space| + 1))
  {
    hide SkipSpace, NextToken, At;
    TokenThere(t, i);
    space := t[i..SkipSpace(t, i)];
  }

  lemma PairsJoined(t: Bytes, i: nat, p: Pair, rest: seq<Pair>, ms: seq<Member>)
    requires rest != [] && At(t, i, PairText(p) + [0x2C])
    requires var x := [] + (PairsText(rest) + [0x7D]); At(t, i + |PairText(p)| + 1, x)
    ensures var x := [] + (PairsText([p] + rest) + [0x7D]);
            && At(t, i, x) && i + |x| <= |t| && |x| == |PairText(p)| + 1 + |PairsText(rest)| + 1
    ensures Bound(ms, [p] + rest) == Bound(Put(ms, PiecesValue(p.key), Value(p.value.v)), rest)
  {
    hide PairText, PairsText, Value, PiecesValue, Put, Bound, At;
    MorePairs(p, rest, ms);
    assert [] + (PairsText(rest) + [0x7D]) == PairsText(rest) + [0x7D];
    assert [] + (PairsText([p] + rest) + [0x7D]) == PairsText([p] + rest) + [0x7D];
    JoinedAt(t, i, PairText(p) + [0x2C], PairsText(rest) + [0x7D]);
    AtWithin(t, i, PairsText([p] + rest) + [0x7D]);
  }

  lemma AtWithin(t: Bytes, i: nat, x: Bytes)
    requires At(t, i, x)
    ensures i + |x| <= |t|
  {}

  lemma OnePair(p: Pair, ms: seq<Member>)
    ensures PairsText([p]) == PairText(p) && [] + (PairsText([p]) + [0x7D]) == PairText(p) + [0x7D]
    ensures Bound(ms, [p]) == Put(ms, PiecesValue(p.key), Value(p.value.v))
  {
    hide PairText, Value, PiecesValue, Put;
    assert [p][1..] == [];
    NothingBound(Put(ms, PiecesValue(p.key), Value(p.value.v)));
  }

  lemma MorePairs(p: Pair, rest: seq<Pair>, ms: seq<Member>)
    requires rest != []
    ensures PairsText([p] + rest) + [0x7D] == (PairText(p) + [0x2C]) + (PairsText(rest) + [0x7D])
    ensures Bound(ms, [p] + rest) == Bound(Put(ms, PiecesValue(p.key), Value(p.value.v)), rest)
  {
    hide PairText, Value, PiecesValue, Put, PairsText, Bound;
    assert ([p] + rest)[1..] == rest;
    PairsTextIs([p] + rest, ms);
    Regrouped(PairText(p), [0x2C], PairsText(rest), [0x7D]);
  }

  /** A member, and the comma or brace behind it. */
  lemma {:induction false} PairParsed(src: Source, i: nat, depth: nat) returns (p: Pair, c: byte)
    requires i <= |src.t| && depth <= NESTING_LIMIT && NextToken(src.t, i).c == 0x22
    requires src.ReadMember(NextToken(src.t, i).next, depth).Read?
    requires var r := src.ReadMember(NextToken(src.t, i).next, depth);
             NextToken(src.t, r.next).c == 0x2C || NextToken(src.t, r.next).c == 0x7D
    ensures IsLoosePair(p, NESTING_LIMIT - depth)
    ensures At(src.t, i, PairText(p) + [c]) && i + |PairText(p)| + 1 <= |src.t|
    ensures var r := src.ReadMember(NextToken(src.t, i).next, depth);
            && r.value == (PiecesValue(p.key), Value(p.value.v))
            && NextToken(src.t, r.next) == Token(c, SkipSpace(src.t, i + |PairText(p)| + 1))
    decreases |src.t| - i, 4
  {
    hide SkipSpace, NextToken, Source.ReadValue, ReadString, At, Blank, IsLoose, Text, Value, PiecesText, PiecesValue,
        ArePieces;
    var t := src.t;
    var before := TokenBehindSpace(t, i);
    var q := i + |before| + 1;
    var key := PiecesParsed(t, q, []);
    assert [] + PiecesValue(key) == PiecesValue(key);
    var j := ReadString(t, q, []).next;
    var gap := TokenBehindSpace(t, j);
    var a := j + |gap| + 1;
    var b := NextToken(t, j).next;
    var s := ValueParsed(src, b, depth);
    var next := src.ReadValue(b, depth).next;
    c := NextToken(t, next).c;
    var after := TokenBehind(t, b + |Text(s)|, next);
    SpaceThere(t, a);
    p := Pair(before, key, gap, Element(t[a..b], s, after));
    PairThere(t, i, p, c, NESTING_LIMIT - depth);
  }

  lemma PairThere(t: Bytes, i: nat, p: Pair, c: byte, n: nat)
    requires Blank(p.before) && ArePieces(p.key) && Blank(p.gap) && Blank(p.value.before) && Blank(p.value.after)
    requires IsLoose(p.value.v, n) && At(t, i, p.before + [0x22])
    requires var q := i + |p.before| + 1;
             && At(t, q, PiecesText(p.key) + [0x22])
             && var j := q + |PiecesText(p.key)| + 1;
                && At(t, j, p.gap + [0x3A])
                && var a := j + |p.gap| + 1;
                   && At(t, a, p.value.before) && At(t, a + |p.value.before|, Text(p.value.v))
                   && At(t, a + |p.value.before| + |Text(p.value.v)|, p.value.after + [c])
    ensures IsLoosePair(p, n) && At(t, i, PairText(p) + [c]) && i + |PairText(p)| + 1 <= |t|
  {
    hide IsLoose, Text, PiecesText, ArePieces, Blank, At;
    var k, v := PiecesText(p.key) + [0x22], Text(p.value.v);
    var x, y := PairKeyText(p), ElementText(p.value) + [c];
    ThreeAt(t, i, p.before + [0x22], k, p.gap + [0x3A]);
    SameKey(p.before, PiecesText(p.key), p.gap);
    ThreeAt(t, i + |x|, p.value.before, v, p.value.after + [c]);
    SameElement(p.value.before, v, p.value.after, c);
    JoinedAt(t, i, x, y);
    assert x + y == PairText(p) + [c];
  }

  lemma ThreeAt(t: Bytes, i: nat, a: Bytes, b: Bytes, c: Bytes)
    requires At(t, i, a) && At(t, i + |a|, b) && At(t, i + |a| + |b|, c)
    ensures At(t, i, a + b + c) && i + |a| + |b| + |c| <= |t|
  {
    JoinedAt(t, i, a, b);
    JoinedAt(t, i, a + b, c);
  }

  lemma SameKey(before: Bytes, k: Bytes, gap: Bytes)
    ensures (before + [0x22]) + (k + [0x22]) + (gap + [0x3A]) == before + ([0x22] + (k + [0x22])) + (gap + [0x3A])
  {}

  lemma SameElement(before: Bytes, v: Bytes, after: Bytes, c: byte)
    ensures before + v + (after + [c]) == (before + v + after) + [c]
  {}

  // ---------------------------------------------------------------------
  // Documents
  // ---------------------------------------------------------------------

  /**
    Whatever is read as a document is a JSON text that stands for it: a byte order mark or
    none, an array or an object nested at most 1024 deep with strings and space as they
    should be, and nothing but space around it.
   */
  lemma DocumentParsed(src: Source) returns (mark: bool, before: Bytes, s: Tree, after: Bytes)
    requires src.ReadDocument().Read?
    ensures src.t == (if mark then [0xEF, 0xBB, 0xBF] else []) + before + Text(s) + after
    ensures forall k :: 0 <= k < |before| ==> before[k] in {0x20, 0x09, 0x0A, 0x0D}
    ensures forall k :: 0 <= k < |after| ==> after[k] in {0x20, 0x09, 0x0A, 0x0D}
    ensures (s.Bracketed? || s.Braced?) && IsLoose(s, 1024) && Value(s) == src.ReadDocument().value
  {
    hide *;
    mark, before, s, after := MarkedDocumentParsed(src);
    BlankIs(before);
    BlankIs(after);
  }

  lemma MarkedDocumentParsed(src: Source) returns (mark: bool, before: Bytes, s: Tree, after: Bytes)
    requires src.ReadDocument().Read?
    ensures src.t == (if mark then [0xEF, 0xBB, 0xBF] else []) + before + Text(s) + after
    ensures Blank(before) && Blank(after)
    ensures (s.Bracketed? || s.Braced?) && IsLoose(s, 1024) && Value(s) == src.ReadDocument().value
  {
    hide SkipSpace, NextToken, Source.ReadDocument, Source.AfterBOM, Text, Value, IsLoose, At, Blank;
    var t, i := src.t, src.AfterBOM();
    mark := i == 3;
    DocumentIs(src);
    before := TokenBehindSpace(t, i);
    s := RootParsed(src, i, before);
    var e := i + |before| + |Text(s)|;
    after := t[e..];
    BlankToTheEnd(t, e);
    Pieced(t, i, before, Text(s));
    MarkThere(src);
  }

  lemma BlankToTheEnd(t: Bytes, i: nat)
    requires i <= |t| && SkipSpace(t, i) == |t|
    ensures Blank(t[i..])
  {
    hide SkipSpace, Blank;
    SpaceThere(t, i);
    assert t[i..|t|] == t[i..];
  }

  lemma BlankIs(x: Bytes)
    requires Blank(x)
    ensures forall k :: 0 <= k < |x| ==> x[k] in {0x20, 0x09, 0x0A, 0x0D}
  {}

  lemma MarkThere(src: Source)
    ensures src.t[..src.AfterBOM()] == if src.AfterBOM() == 3 then [0xEF, 0xBB, 0xBF] else []
  {}

  lemma DocumentIs(src: Source)
    requires src.ReadDocument().Read?
    ensures var token := NextToken(src.t, src.AfterBOM());
            && (token.c == 0x5B || token.c == 0x7B)
            && var r := if token.c == 0x5B then src.ReadArray(token.next, 0) else src.ReadObject(token.next, 0);
               r.Read? && r.value == src.ReadDocument().value && SkipSpace(src.t, r.next) == |src.t|
  {
    hide NextToken, SkipSpace, Source.ReadArray, Source.ReadObject;
  }

  lemma RootParsed(src: Source, i: nat, before: Bytes) returns (s: Tree)
    requires i <= |src.t| && (NextToken(src.t, i).c == 0x5B || NextToken(src.t, i).c == 0x7B)
    requires At(src.t, i, before + [NextToken(src.t, i).c]) && i + |before| + 1 <= |src.t|
    requires NextToken(src.t, i).next == SkipSpace(src.t, i + |before| + 1)
    requires var token := NextToken(src.t, i);
             var r := if token.c == 0x5B then src.ReadArray(token.next, 0) else src.ReadObject(token.next, 0);
             r.Read? && SkipSpace(src.t, r.next) == |src.t|
    ensures (s.Bracketed? || s.Braced?) && IsLoose(s, 1024)
    ensures At(src.t, i, before) && At(src.t, i + |before|, Text(s)) && i + |before| + |Text(s)| <= |src.t|
    ensures SkipSpace(src.t, i + |before| + |Text(s)|) == |src.t|
    ensures var token := NextToken(src.t, i);
            Value(s) == (if token.c == 0x5B then src.ReadArray(token.next, 0)
                         else src.ReadObject(token.next, 0)).value
  {
    hide SkipSpace, NextToken, Source.ReadArray, Source.ReadObject, Parsed, Text, Value, IsLoose, At;
    var t, token, p := src.t, NextToken(src.t, i), i + |before|;
    AtConcat(t, i, before, [token.c]);
    AtByte(t, p, [token.c], 0);
    SpaceInFront(src, p + 1, 0);
    var r := if token.c == 0x5B then src.ReadArray(p + 1, 0) else src.ReadObject(p + 1, 0);
    if token.c == 0x5B {
      s := ArrayParsed(src, p, 0);
    } else {
      s := ObjectParsed(src, p, 0);
    }
    ParsedText(t, p, s, r.value, r.next, NESTING_LIMIT);
    SkipSpaceTwice(t, p + |Text(s)|);
  }

  lemma ParsedText(t: Bytes, i: nat, s: Tree, v: Json, next: nat, n: nat)
    requires Parsed(t, i, s, v, next, n)
    ensures IsLoose(s, n) && Value(s) == v && At(t, i, Text(s)) && i + |Text(s)| <= |t|
  {}

  lemma Pieced(t: Bytes, i: nat, before: Bytes, x: Bytes)
    requires i <= |t| && At(t, i, before) && At(t, i + |before|, x)
    ensures i + |before| + |x| <= |t| && t == t[..i] + before + x + t[i + |before| + |x|..]
  {}

  // ---------------------------------------------------------------------
  // How texts are refused
  // ---------------------------------------------------------------------

  /** A text that begins with anything but a bracket or a brace. */
  lemma NoDocument(src: Source, before: Bytes, c: byte, rest: Bytes)
    requires src.t == before + [c] + rest && Blank(before) && c != 0x5B && c != 0x7B && !IsBlank(c) && c != 0xEF
    ensures src.ReadDocument().Failed? && src.ReadDocument().error == IllegalValue
  {
    hide SkipSpace, Source.ReadArray, Source.ReadObject;
    var t := src.t;
    assert At(t, 0, before) && t[|before|] == c;
    assert t[0] == if before == [] then c else before[0];
    BlankSkipped(t, 0, before);
    NotSpace(t, |before|);
  }

  /** Something behind the document. */
  lemma GarbageBehind(src: Source, before: Bytes, s: Tree, after: Bytes, c: byte, rest: Bytes)
    requires (s.Bracketed? || s.Braced?) && IsText(s, 1024, src.strtod) && Blank(before) && Blank(after) && !IsBlank(c)
    requires src.t == before + Text(s) + (after + [c] + rest)
    ensures src.ReadDocument() == Failed(GarbageAtEnd, |before| + |Text(s)| + |after|)
  {
    hide *;
    NoMark(src, before, s, after + [c] + rest);
    GarbagePieces(src.t, before, Text(s), after, c, rest);
    GarbageAt(src, |before|, before, s, after);
  }

  lemma GarbagePieces(t: Bytes, before: Bytes, x: Bytes, after: Bytes, c: byte, rest: Bytes)
    requires t == before + x + (after + [c] + rest)
    ensures var e := |before| + |x|;
            && At(t, 0, before) && At(t, |before|, x) && At(t, e, after) && e + |after| < |t| && t[e + |after|] == c
  {}

  lemma GarbageAt(src: Source, i: nat, before: Bytes, s: Tree, after: Bytes)
    requires (s.Bracketed? || s.Braced?) && IsText(s, 1024, src.strtod) && Blank(before) && Blank(after)
    requires src.AfterBOM() == 0 && i == |before| && At(src.t, 0, before) && At(src.t, i, Text(s))
    requires var e := i + |Text(s)|;
             At(src.t, e, after) && e + |after| < |src.t| && !IsBlank(src.t[e + |after|])
    ensures src.ReadDocument() == Failed(GarbageAtEnd, i + |Text(s)| + |after|)
  {
    hide Text, NextToken, SkipSpace, Source.ReadArray, Source.ReadObject, Source.ReadDocument, Source.AfterBOM,
        IsText, Value, Blank, At, IsBlank;
    var t, e := src.t, i + |Text(s)|;
    BlankSkipped(t, 0, before);
    SameToken(t, 0, i);
    RootRead(src, i, s);
    BlankSkipped(t, e, after);
    NotSpace(t, e + |after|);
    SkipSpaceTwice(t, e);
    DocumentFails(src);
  }

  lemma DocumentFails(src: Source)
    ensures var token := NextToken(src.t, src.AfterBOM());
            token.c == 0x5B || token.c == 0x7B ==>
              var r := if token.c == 0x5B then src.ReadArray(token.next, 0) else src.ReadObject(token.next, 0);
              r.Read? && SkipSpace(src.t, r.next) < |src.t| ==>
                src.ReadDocument() == Failed(GarbageAtEnd, SkipSpace(src.t, r.next))
  {
    hide NextToken, SkipSpace, Source.ReadArray, Source.ReadObject, Source.AfterBOM;
  }

  lemma NoMark(src: Source, before: Bytes, s: Tree, rest: Bytes)
    requires (s.Bracketed? || s.Braced?) && Blank(before) && src.t == before + Text(s) + rest
    ensures src.AfterBOM() == 0
  {
    assert src.t[0] == if before == [] then Text(s)[0] else before[0];
  }

  /** What else is refused, and how. */
  lemma Refusals(src: Source, i: nat, depth: nat)
    requires i < |src.t|
    ensures src.t[i] == 0x5D ==> src.ReadValue(i, depth) == Failed(MissingObject, i + 1)
    ensures (src.t[i] == 0x5B || src.t[i] == 0x7B) && depth >= 1024 ==>
              src.ReadValue(i, depth) == Failed(DeepNesting, i + 1)
    ensures NumberEnd(src.t, i) == |src.t| ==> src.ReadNumber(i) == Failed(TerminationByNumber, |src.t|)
    ensures src.t[i] == 0x6E && i + 4 < |src.t| && src.t[i + 1..i + 4] != [0x75, 0x6C, 0x6C] ==>
              src.ReadValue(i, depth).Failed? && src.ReadValue(i, depth).error == IllegalValue
  {
    hide Source.ReadItems, Source.ReadMembers, NumberEnd, ReadString, MatchEnd;
    if src.t[i] == 0x6E && i + 4 < |src.t| && src.t[i + 1..i + 4] != [0x75, 0x6C, 0x6C] {
      AnotherName(src.t, i + 1, NULL_TAIL);
    }
  }

  lemma AnotherName(t: Bytes, i: nat, tail: Bytes)
    requires i + |tail| <= |t| && t[i..i + |tail|] != tail
    ensures MatchEnd(t, i, tail).Failed? && MatchEnd(t, i, tail).error == IllegalValue
  {
    hide MatchEnd;
    if MatchEnd(t, i, tail).Read? {
      NameThere(t, i, tail);
    } else {
      MismatchIsIllegal(t, i, tail);
    }
  }

  lemma {:induction false} MismatchIsIllegal(t: Bytes, i: nat, tail: Bytes)
    requires i + |tail| <= |t| && MatchEnd(t, i, tail).Failed?
    ensures MatchEnd(t, i, tail).error == IllegalValue
    decreases |tail|
  {
    if tail != [] && t[i] == tail[0] {
      MismatchIsIllegal(t, i + 1, tail[1..]);
    }
  }

  /** Behind a key there is a colon, behind a member a comma or a brace, and behind a comma a key. */
  lemma MemberRefusals(src: Source, i: nat, depth: nat, ms: seq<Member>)
    requires i <= |src.t| && NextToken(src.t, i).c == 0x22
    ensures var t, q := src.t, NextToken(src.t, i).next;
            && (ReadString(t, q, []).Read? && NextToken(t, ReadString(t, q, []).next).c != 0x3A ==>
                  var r := src.ReadMembers(NextToken(t, i), depth, ms); r.Failed? && r.error == MissingNameSeparator)
            && (src.ReadMember(q, depth).Read? ==>
                  var next := NextToken(t, src.ReadMember(q, depth).next);
                  var r := src.ReadMembers(NextToken(t, i), depth, ms);
                  && (next.c != 0x2C && next.c != 0x7D ==> r.Failed? && r.error == UnterminatedObject)
                  && (next.c == 0x2C && NextToken(t, next.next).c == 0x7D ==> r.Failed? && r.error == MissingObject)
                  && (next.c == 0x2C && NextToken(t, next.next).c != 0x22 && NextToken(t, next.next).c != 0x7D ==>
                        r.Failed? && r.error == UnterminatedObject))
  {
    hide NextToken, ReadString, Source.ReadValue, Put;
  }
}
