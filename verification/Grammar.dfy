/**
  JSON text as section 2 of RFC 8259 defines it, and a little more: what the pieces of a
  text look like, byte by byte, and that the parser's grammar reads each as what it
  stands for, wherever it is in a text.
 */
module Grammar {
  import opened Bytes
  import opened Numbers
  import opened Json
  import opened Decimals
  import opened Reader

  // ---------------------------------------------------------------------
  // Text at a position
  // ---------------------------------------------------------------------

  /** The text `t` has `x` at position `i`. */
  predicate At(t: Bytes, i: nat, x: Bytes) {
    i + |x| <= |t| && t[i..i + |x|] == x
  }

  lemma AtConcat(t: Bytes, i: nat, a: Bytes, b: Bytes)
    requires At(t, i, a + b)
    ensures At(t, i, a) && At(t, i + |a|, b) && i + |a| + |b| <= |t|
  {
    assert t[i..i + |a|] == t[i..i + |a + b|][..|a|] == a;
    assert t[i + |a|..i + |a| + |b|] == t[i..i + |a + b|][|a|..] == b;
  }

  lemma AtThree(t: Bytes, i: nat, a: Bytes, b: Bytes, c: Bytes)
    requires At(t, i, a + b + c)
    ensures At(t, i, a) && At(t, i + |a|, b) && At(t, i + |a| + |b|, c) && i + |a| + |b| + |c| <= |t|
  {
    AtConcat(t, i, a + b, c);
    AtConcat(t, i, a, b);
  }

  lemma AtByte(t: Bytes, i: nat, x: Bytes, k: nat)
    requires At(t, i, x) && k < |x|
    ensures i + |x| <= |t| && t[i + k] == x[k]
  {
    assert t[i..i + |x|][k] == x[k];
  }

  lemma JoinedAt(t: Bytes, i: nat, a: Bytes, b: Bytes)
    requires At(t, i, a) && At(t, i + |a|, b)
    ensures At(t, i, a + b)
  {
    assert t[i..i + |a| + |b|] == t[i..i + |a|] + t[i + |a|..i + |a| + |b|];
  }

  // ---------------------------------------------------------------------
  // Space
  // ---------------------------------------------------------------------

  /** Blank, tab, line feed and carriage return. */
  predicate IsBlank(c: byte) {
    c == 0x20 || c == 0x09 || c == 0x0A || c == 0x0D
  }

  predicate Blank(x: Bytes) {
    forall k :: 0 <= k < |x| ==> IsBlank(x[k])
  }

  /** What can come right behind a value. */
  predicate IsDelimiter(c: byte) {
    c == 0x2C || c == 0x5D || c == 0x7D || IsBlank(c)
  }

  predicate Delimited(t: Bytes, i: nat) {
    i < |t| && IsDelimiter(t[i])
  }

  lemma {:induction false} SpaceSkipped(t: Bytes, i: nat, j: nat)
    requires i <= j <= |t| && forall k :: i <= k < j ==> IsSpace(t[k])
    ensures SkipSpace(t, i) == SkipSpace(t, j)
    decreases j - i
  {
    if i < j {
      SpaceSkipped(t, i + 1, j);
    }
  }

  /** Reading goes on behind space, and only behind space. */
  lemma BlankSkipped(t: Bytes, i: nat, x: Bytes)
    requires At(t, i, x) && Blank(x)
    ensures i + |x| <= |t| && SkipSpace(t, i) == SkipSpace(t, i + |x|)
  {
    forall k | i <= k < i + |x|
      ensures IsSpace(t[k])
    {
      AtByte(t, i, x, k - i);
    }
    SpaceSkipped(t, i, i + |x|);
  }

  lemma NotSpace(t: Bytes, i: nat)
    requires i < |t| && !IsBlank(t[i])
    ensures SkipSpace(t, i) == i
  {}

  lemma SkipSpaceTwice(t: Bytes, i: nat)
    requires i <= |t|
    ensures SkipSpace(t, SkipSpace(t, i)) == SkipSpace(t, i)
  {}

  /** Tokens do not depend on the space in front of them. */
  lemma SameToken(t: Bytes, i: nat, j: nat)
    requires i <= |t| && j <= |t| && SkipSpace(t, i) == SkipSpace(t, j)
    ensures NextToken(t, i) == NextToken(t, j)
  {}

  /** A structural character behind space. */
  lemma TokenAt(t: Bytes, i: nat, space: Bytes, c: byte)
    requires At(t, i, space + [c]) && Blank(space)
    requires c == 0x5B || c == 0x5D || c == 0x7B || c == 0x7D || c == 0x3A || c == 0x2C
    ensures var e := i + |space| + 1;
            && e <= |t| && NextToken(t, i) == Token(c, SkipSpace(t, e))
            && SkipSpace(t, i) == e - 1 && t[e - 1] == c
  {
    hide SkipSpace, At;
    AtConcat(t, i, space, [c]);
    BlankSkipped(t, i, space);
    AtByte(t, i + |space|, [c], 0);
    NotSpace(t, i + |space|);
  }

  /** A quote behind space. */
  lemma QuoteAt(t: Bytes, i: nat, space: Bytes)
    requires At(t, i, space + [0x22]) && Blank(space)
    ensures NextToken(t, i) == Token(0x22, i + |space| + 1)
  {
    hide SkipSpace, At;
    AtConcat(t, i, space, [0x22]);
    BlankSkipped(t, i, space);
    AtByte(t, i + |space|, [0x22], 0);
    NotSpace(t, i + |space|);
  }

  // ---------------------------------------------------------------------
  // Strings
  // ---------------------------------------------------------------------

  type HexDigitValue = d: nat | d < 16

  /** A hexadecimal digit, with the case of letters. */
  datatype Hex = Hex(d: HexDigitValue, upper: bool)

  function HexText(h: Hex): byte {
    if h.d < 10 then 0x30 + h.d else if h.upper then 0x41 + (h.d - 10) else 0x61 + (h.d - 10)
  }

  /** A character by itself, one behind a backslash, or four hexadecimal digits. */
  datatype Piece = Plain(c: byte) | Escape(c: byte) | Unicode(a: Hex, b: Hex, c2: Hex, d: Hex)

  function CodePoint(p: Piece): nat
    requires p.Unicode?
  {
    4096 * p.a.d + 256 * p.b.d + 16 * p.c2.d + p.d.d
  }

  /** Quotes and backslashes do not stand by themselves, and code points are not halves of surrogate pairs. */
  predicate IsPiece(p: Piece) {
    match p
    case Plain(c) => c != 0x22 && c != 0x5C
    case Escape(c) => c != 0x75
    case Unicode(_, _, _, _) => !(0xD800 <= CodePoint(p) <= 0xDFFF)
  }

  function PieceText(p: Piece): (x: Bytes)
    ensures x != []
  {
    match p
    case Plain(c) => [c]
    case Escape(c) => [0x5C, c]
    case Unicode(a, b, c, d) => [0x5C, 0x75, HexText(a), HexText(b), HexText(c), HexText(d)]
  }

  /** The bytes a piece stands for. Characters without a meaning behind a backslash stand for themselves. */
  function PieceValue(p: Piece): Bytes {
    match p
    case Plain(c) => [c]
    case Escape(c) =>
      if c == 0x62 then [0x08]
      else if c == 0x66 then [0x0C]
      else if c == 0x6E then [0x0A]
      else if c == 0x72 then [0x0D]
      else if c == 0x74 then [0x09]
      else [c]
    case Unicode(_, _, _, _) => Utf8(CodePoint(p))
  }

  predicate ArePieces(ps: seq<Piece>) {
    forall k :: 0 <= k < |ps| ==> IsPiece(ps[k])
  }

  function PiecesText(ps: seq<Piece>): Bytes {
    if ps == [] then [] else PieceText(ps[0]) + PiecesText(ps[1..])
  }

  function PiecesValue(ps: seq<Piece>): Bytes {
    if ps == [] then [] else PieceValue(ps[0]) + PiecesValue(ps[1..])
  }

  /** The two-character escapes, and what any other character behind a backslash stands for. */
  lemma NamedEscapes(t: Bytes, i: nat, s: Bytes)
    requires i + 1 < |t| && t[i] == 0x5C && t[i + 1] != 0x75
    ensures ReadString(t, i, s) ==
            ReadString(t, i + 2,
                       s + if t[i + 1] == 0x62 then [0x08]
                           else if t[i + 1] == 0x66 then [0x0C]
                           else if t[i + 1] == 0x6E then [0x0A]
                           else if t[i + 1] == 0x72 then [0x0D]
                           else if t[i + 1] == 0x74 then [0x09]
                           else [t[i + 1]])
  {}

  lemma HexTextRead(h: Hex)
    ensures HexDigit(HexText(h)) == Some(h.d)
  {}

  /** The escape of a half of a surrogate pair is refused. */
  lemma SurrogateRefused(t: Bytes, i: nat, p: Piece)
    requires p.Unicode? && 0xD800 <= CodePoint(p) <= 0xDFFF && At(t, i, PieceText(p)) && i + 6 < |t|
    ensures forall before :: ReadString(t, i, before) == Failed(IllegalEscapeSequence, i + 6)
  {
    hide ReadString, HexDigits;
    UnicodeRead(t, i, p);
    forall before
      ensures ReadString(t, i, before) == Failed(IllegalEscapeSequence, i + 6)
    {
      OneMoreCharacter(t, i, before);
    }
  }

  lemma UnicodeRead(t: Bytes, i: nat, p: Piece)
    requires p.Unicode? && At(t, i, PieceText(p))
    ensures t[i] == 0x5C && t[i + 1] == 0x75
    ensures HexDigits(t, i + 2, 4, 0) == Read(CodePoint(p), i + 6)
  {
    hide HexDigits, HexDigit, HexText;
    var x := PieceText(p);
    forall k | 0 <= k < 6
      ensures t[i + k] == x[k]
    {
      AtByte(t, i, x, k);
    }
    assert t[i + 0] == x[0] && t[i + 1] == x[1];
    assert t[i + 2] == x[2] && t[i + 3] == x[3] && t[i + 4] == x[4] && t[i + 5] == x[5];
    HexTextRead(p.a);
    HexTextRead(p.b);
    HexTextRead(p.c2);
    HexTextRead(p.d);
    FourDigitsValue(t, i + 2);
  }

  lemma OneMoreCharacter(t: Bytes, i: nat, s: Bytes)
    requires i < |t| && t[i] != 0x22 && (t[i] == 0x5C ==> i + 1 < |t|)
    ensures t[i] != 0x5C ==> ReadString(t, i, s) == ReadString(t, i + 1, s + [t[i]])
    ensures t[i] == 0x5C && ReadEscape(t, i + 1).Read? ==>
              ReadString(t, i, s) == ReadString(t, ReadEscape(t, i + 1).next, s + ReadEscape(t, i + 1).value)
    ensures t[i] == 0x5C && ReadEscape(t, i + 1).Failed? ==>
              ReadString(t, i, s) == Failed(ReadEscape(t, i + 1).error, ReadEscape(t, i + 1).at)
  {}

  lemma PieceRead(t: Bytes, i: nat, p: Piece, s: Bytes)
    requires IsPiece(p) && At(t, i, PieceText(p)) && i + |PieceText(p)| < |t|
    ensures ReadString(t, i, s) == ReadString(t, i + |PieceText(p)|, s + PieceValue(p))
  {
    hide ReadString, HexDigits, Utf8;
    match p
    case Plain(c) =>
      AtByte(t, i, [c], 0);
      OneMoreCharacter(t, i, s);
    case Escape(c) =>
      AtByte(t, i, [0x5C, c], 0);
      AtByte(t, i, [0x5C, c], 1);
      OneMoreCharacter(t, i, s);
    case Unicode(_, _, _, _) =>
      UnicodeRead(t, i, p);
      OneMoreCharacter(t, i, s);
  }

  /** A string is read as the bytes its pieces stand for, up to its closing quote. */
  lemma {:induction false} PiecesRead(t: Bytes, i: nat, ps: seq<Piece>, before: Bytes)
    requires ArePieces(ps) && At(t, i, PiecesText(ps) + [0x22])
    ensures ReadString(t, i, before) == Read(before + PiecesValue(ps), i + |PiecesText(ps)| + 1)
    decreases |ps|
  {
    hide PieceText, PieceValue, ReadString, At, IsPiece;
    if ps == [] {
      assert PiecesText(ps) + [0x22] == [0x22];
      AtByte(t, i, [0x22], 0);
      ClosingQuote(t, i, before);
      assert before + PiecesValue(ps) == before;
    } else {
      var x, y := PieceText(ps[0]), PiecesText(ps[1..]) + [0x22];
      assert PiecesText(ps) + [0x22] == x + y;
      AtConcat(t, i, x, y);
      PieceRead(t, i, ps[0], before);
      PiecesRead(t, i + |x|, ps[1..], before + PieceValue(ps[0]));
      assert before + PieceValue(ps[0]) + PiecesValue(ps[1..]) == before + PiecesValue(ps);
    }
  }

  lemma ClosingQuote(t: Bytes, i: nat, s: Bytes)
    requires i < |t| && t[i] == 0x22
    ensures ReadString(t, i, s) == Read(s, i + 1)
  {}

  /** A text that ends inside a string. */
  lemma {:induction false} UnclosedString(t: Bytes, i: nat, ps: seq<Piece>, before: Bytes)
    requires ArePieces(ps) && i <= |t| && t[i..] == PiecesText(ps) && (ps != [] ==> !ps[|ps| - 1].Unicode?)
    ensures ReadString(t, i, before) == Failed(UnterminatedString, |t| + 1)
    decreases |ps|
  {
    hide PieceValue, PieceText, ReadString, IsPiece;
    if ps == [] {
      assert i == |t|;
      EndOfText(t, before);
    } else if |ps| == 1 {
      LastPiece(t, i, ps, before);
    } else {
      var x, y := PieceText(ps[0]), PiecesText(ps[1..]);
      assert t[i..] == x + y;
      MorePieces(ps[1..]);
      assert t[i..i + |x|] == x && t[i + |x|..] == y;
      PieceRead(t, i, ps[0], before);
      UnclosedString(t, i + |x|, ps[1..], before + PieceValue(ps[0]));
    }
  }

  lemma MorePieces(ps: seq<Piece>)
    requires ps != []
    ensures PiecesText(ps) != []
  {}

  lemma EndOfText(t: Bytes, s: Bytes)
    ensures ReadString(t, |t|, s) == Failed(UnterminatedString, |t| + 1)
  {}

  lemma LastPiece(t: Bytes, i: nat, ps: seq<Piece>, before: Bytes)
    requires ArePieces(ps) && |ps| == 1 && i <= |t| && t[i..] == PiecesText(ps) && !ps[0].Unicode?
    ensures ReadString(t, i, before) == Failed(UnterminatedString, |t| + 1)
  {
    hide ReadString;
    var x := PieceText(ps[0]);
    assert PiecesText(ps[1..]) == [] && t[i..] == x;
    assert forall k :: 0 <= k < |x| ==> t[i + k] == t[i..][k];
    OneMoreCharacter(t, i, before);
    forall s: Bytes
      ensures ReadString(t, |t|, s) == Failed(UnterminatedString, |t| + 1)
    {
      EndOfText(t, s);
    }
  }

  // ---------------------------------------------------------------------
  // Numbers
  // ---------------------------------------------------------------------

  predicate AreDigits(x: Bytes) {
    forall k :: 0 <= k < |x| ==> 0x30 <= x[k] <= 0x39
  }

  lemma {:induction false} DigitsEndAt(t: Bytes, i: nat, j: nat)
    requires i <= j <= |t| && (forall k :: i <= k < j ==> IsDigit(t[k])) && (j < |t| ==> !IsDigit(t[j]))
    ensures DigitsEnd(t, i) == j
    decreases j - i
  {
    if i < j {
      DigitsEndAt(t, i + 1, j);
    }
  }

  lemma DigitsScanned(t: Bytes, i: nat, ds: Bytes)
    requires At(t, i, ds) && AreDigits(ds) && i + |ds| < |t| && !(0x30 <= t[i + |ds|] <= 0x39)
    ensures DigitsEnd(t, i) == i + |ds|
  {
    forall k | i <= k < i + |ds|
      ensures IsDigit(t[k])
    {
      AtByte(t, i, ds, k - i);
    }
    DigitsEndAt(t, i, i + |ds|);
  }

  /** In base 10 `strtoll` reads decimal digits. */
  lemma {:induction false} AccumulateDecimal(s: Bytes, n: nat)
    ensures Accumulate(s, 10, n) == DigitsValue(s, n)
    decreases |s|
  {
    if s != [] && IsDigit(s[0]) {
      AccumulateDecimal(s[1..], 10 * n + (s[0] - 0x30));
    }
  }

  /** `0`, or digits that do not begin with it. */
  predicate IsInteger(ds: Bytes) {
    ds == [0x30] || (ds != [] && AreDigits(ds) && ds[0] != 0x30)
  }

  /** A point and digits. */
  predicate IsFraction(x: Bytes) {
    x != [] && x[0] == 0x2E && AreDigits(x[1..])
  }

  /** `e` or `E`, perhaps a sign, and digits. */
  predicate IsExponent(x: Bytes) {
    && x != [] && (x[0] == 0x65 || x[0] == 0x45)
    && (AreDigits(x[1..]) || (|x| > 1 && (x[1] == 0x2B || x[1] == 0x2D) && AreDigits(x[2..])))
  }

  lemma IntegerScanned(t: Bytes, i: nat, sign: Bytes, ds: Bytes)
    requires (sign == [] || sign == [0x2D]) && IsInteger(ds) && At(t, i, sign + ds)
    requires i + |sign + ds| < |t| && !(0x30 <= t[i + |sign + ds|] <= 0x39)
    ensures IntegerEnd(t, i) == i + |sign + ds|
  {
    hide DigitsEnd;
    AtConcat(t, i, sign, ds);
    var j := i + |sign|;
    AtByte(t, j, ds, 0);
    if sign != [] {
      AtByte(t, i, sign, 0);
    }
    if ds != [0x30] {
      DigitsScanned(t, j, ds);
    }
  }

  lemma FractionScanned(t: Bytes, i: nat, x: Bytes)
    requires IsFraction(x) && At(t, i, x) && i + |x| < |t| && !(0x30 <= t[i + |x|] <= 0x39)
    ensures FractionEnd(t, i) == i + |x|
  {
    hide DigitsEnd;
    AtByte(t, i, x, 0);
    assert x == [x[0]] + x[1..];
    AtConcat(t, i, [x[0]], x[1..]);
    DigitsScanned(t, i + 1, x[1..]);
  }

  lemma ExponentScanned(t: Bytes, i: nat, x: Bytes)
    requires IsExponent(x) && At(t, i, x) && i + |x| < |t| && IsDelimiter(t[i + |x|])
    ensures ExponentEnd(t, i) == i + |x|
  {
    hide DigitsEnd;
    AtByte(t, i, x, 0);
    var n := if AreDigits(x[1..]) then 1 else 2;
    assert x == x[..n] + x[n..];
    AtConcat(t, i, x[..n], x[n..]);
    DigitsScanned(t, i + n, x[n..]);
    if |x| > 1 {
      AtByte(t, i, x, 1);
    }
  }

  /** What a number stops at: a digit would go on with the integer or the fraction, the others are what comes next. */
  lemma PartsEnd(t: Bytes, i: nat, frac: Bytes, exp: Bytes)
    requires (frac == [] || IsFraction(frac)) && (exp == [] || IsExponent(exp))
    requires At(t, i, frac + exp) && Delimited(t, i + |frac + exp|)
    ensures !(0x30 <= t[i] <= 0x39)
    ensures FractionEnd(t, i) == i + |frac| && ExponentEnd(t, i + |frac|) == i + |frac| + |exp|
  {
    hide DigitsEnd;
    AtConcat(t, i, frac, exp);
    if exp != [] {
      AtByte(t, i + |frac|, exp, 0);
      ExponentScanned(t, i + |frac|, exp);
    }
    if frac != [] {
      AtByte(t, i, frac, 0);
      FractionScanned(t, i, frac);
    }
  }

  lemma NumeralScanned(t: Bytes, i: nat, sign: Bytes, ds: Bytes, frac: Bytes, exp: Bytes)
    requires (sign == [] || sign == [0x2D]) && IsInteger(ds)
    requires (frac == [] || IsFraction(frac)) && (exp == [] || IsExponent(exp))
    requires At(t, i, sign + ds + (frac + exp)) && Delimited(t, i + |sign + ds + (frac + exp)|)
    ensures IntegerEnd(t, i) == i + |sign + ds|
    ensures NumberEnd(t, i) == i + |sign + ds + (frac + exp)|
  {
    hide IntegerEnd, FractionEnd, ExponentEnd, IsFraction, IsExponent, At, IsInteger;
    AtConcat(t, i, sign + ds, frac + exp);
    PartsEnd(t, i + |sign + ds|, frac, exp);
    IntegerScanned(t, i, sign, ds);
  }

  function Signed(sign: Bytes, ds: Bytes): int {
    var n: int := DigitsValue(ds, 0);
    if sign == [] then n else -n
  }

  /** `strtoll`, on an integer in front of something that is not part of one. */
  lemma IntegerConverted(s: Bytes, sign: Bytes, ds: Bytes)
    requires (sign == [] || sign == [0x2D]) && IsInteger(ds) && At(s, 0, sign + ds) && Delimited(s, |sign + ds|)
    ensures StrToLL(s) == Some(Signed(sign, ds))
  {
    hide Accumulate, DigitsValue;
    AtConcat(s, 0, sign, ds);
    AtByte(s, |sign|, ds, 0);
    var v := s[|sign|..];
    if sign != [] {
      AtByte(s, 0, sign, 0);
    }
    assert SkipCSpace(s) == s;
    assert v[0] == ds[0] && At(v, 0, ds) && v[|ds|] == s[|sign| + |ds|];
    DigitsConverted(v, ds);
  }

  lemma DigitsConverted(v: Bytes, ds: Bytes)
    requires IsInteger(ds) && At(v, 0, ds) && Delimited(v, |ds|)
    ensures ds == [0x30] ==> Accumulate(v, 8, 0) == DigitsValue(ds, 0) && |v| > 1 && v[1] != 0x78 && v[1] != 0x58
    ensures ds != [0x30] ==> Accumulate(v, 10, 0) == DigitsValue(ds, 0) && v[0] != 0x30 && DigitValue(v[0]) < 10
  {
    AtByte(v, 0, ds, 0);
    var r := v[|ds|..];
    assert v == ds + r && r[0] == v[|ds|];
    if ds == [0x30] {
      assert v[1..][0] == v[1];
      assert Accumulate(v[1..], 8, 0) == 0;
      assert ds[1..] == [];
    } else {
      AccumulateDecimal(v, 0);
      DigitsValueConcat(ds, r, 0);
      DigitsValueConcat(ds, [], 0);
      assert ds + [] == ds;
    }
  }

  /**
    Every number of the grammar, with a delimiter behind it, is read up to its end: as the
    integer its digits spell if it is one below 2^25, and otherwise as what `strtod` makes of
    the text from its start on.
   */
  lemma NumeralRead(src: Source, before: Bytes, sign: Bytes, ds: Bytes, frac: Bytes, exp: Bytes, c: byte, rest: Bytes)
    requires sign == [] || sign == [0x2D]
    requires ds == [0x30] || (ds != [] && ds[0] != 0x30 && forall k :: 0 <= k < |ds| ==> 0x30 <= ds[k] <= 0x39)
    requires frac == [] || (frac[0] == 0x2E && forall k :: 1 <= k < |frac| ==> 0x30 <= frac[k] <= 0x39)
    requires exp == [] ||
             ((exp[0] == 0x65 || exp[0] == 0x45) &&
              ((forall k :: 1 <= k < |exp| ==> 0x30 <= exp[k] <= 0x39) ||
               (|exp| > 1 && (exp[1] == 0x2B || exp[1] == 0x2D) &&
                forall k :: 2 <= k < |exp| ==> 0x30 <= exp[k] <= 0x39)))
    requires c == 0x2C || c == 0x5D || c == 0x7D || c == 0x20 || c == 0x09 || c == 0x0A || c == 0x0D
    requires src.t == before + (sign + ds + (frac + exp)) + [c] + rest
    ensures var i, e := |before|, |before| + |sign| + |ds| + |frac| + |exp|;
            var m: int := DigitsValue(ds, 0);
            var n := if sign == [] then m else -m;
            && NumberEnd(src.t, i) == e
            && src.ReadNumber(i) ==
               if frac == [] && exp == [] && -0x200_0000 < n < 0x200_0000 then Read(Num(Int(n)), e)
               else
                 match src.strtod(src.t[i..])
                 case Some(d) => Read(Num(Canonical(d)), e)
                 case None => Failed(IllegalNumber, e)
  {
    hide *;
    Parts(ds, frac, exp);
    Delimiters();
    NumeralIn(src, before, sign, ds, frac, exp, c, rest);
    SignedIs(sign, ds);
  }

  lemma NumeralIn(src: Source, before: Bytes, sign: Bytes, ds: Bytes, frac: Bytes, exp: Bytes, c: byte, rest: Bytes)
    requires (sign == [] || sign == [0x2D]) && IsInteger(ds)
    requires (frac == [] || IsFraction(frac)) && (exp == [] || IsExponent(exp)) && IsDelimiter(c)
    requires src.t == before + (sign + ds + (frac + exp)) + [c] + rest
    ensures var i, e, n := |before|, |before| + |sign| + |ds| + |frac| + |exp|, Signed(sign, ds);
            && NumberEnd(src.t, i) == e
            && src.ReadNumber(i) ==
               if frac == [] && exp == [] && -0x200_0000 < n < 0x200_0000 then Read(Num(Int(n)), e)
               else
                 match src.strtod(src.t[i..])
                 case Some(d) => Read(Num(Canonical(d)), e)
                 case None => Failed(IllegalNumber, e)
  {
    hide *;
    Middle(src.t, before, sign + ds + (frac + exp), c, rest);
    NumeralReadAt(src, |before|, sign, ds, frac, exp);
  }

  lemma Delimiters()
    ensures IsDelimiter(0x2C) && IsDelimiter(0x5D) && IsDelimiter(0x7D)
    ensures IsDelimiter(0x20) && IsDelimiter(0x09) && IsDelimiter(0x0A) && IsDelimiter(0x0D)
  {}

  lemma SignedIs(sign: Bytes, ds: Bytes)
    ensures var m: int := DigitsValue(ds, 0); Signed(sign, ds) == if sign == [] then m else -m
  {}

  lemma NumeralReadAt(src: Source, i: nat, sign: Bytes, ds: Bytes, frac: Bytes, exp: Bytes)
    requires (sign == [] || sign == [0x2D]) && IsInteger(ds)
    requires (frac == [] || IsFraction(frac)) && (exp == [] || IsExponent(exp))
    requires var x := sign + ds + (frac + exp); At(src.t, i, x) && Delimited(src.t, i + |x|)
    ensures i <= |src.t|
    ensures var e, n := i + |sign| + |ds| + |frac| + |exp|, Signed(sign, ds);
            && NumberEnd(src.t, i) == e
            && src.ReadNumber(i) ==
               if frac == [] && exp == [] && -0x200_0000 < n < 0x200_0000 then Read(Num(Int(n)), e)
               else
                 match src.strtod(src.t[i..])
                 case Some(d) => Read(Num(Canonical(d)), e)
                 case None => Failed(IllegalNumber, e)
  {
    hide NumberEnd, IntegerEnd, StrToLL, Canonical, IsInteger, IsFraction, IsExponent, At, IsDelimiter, Signed;
    NumeralScanned(src.t, i, sign, ds, frac, exp);
    AtHere(src.t, i, sign + ds + (frac + exp));
    if frac == [] && exp == [] {
      assert sign + ds + (frac + exp) == sign + ds;
      IntegerConverted(src.t[i..], sign, ds);
    }
  }

  lemma AtHere(t: Bytes, i: nat, x: Bytes)
    requires At(t, i, x) && Delimited(t, i + |x|)
    ensures i <= |t| && At(t[i..], 0, x) && Delimited(t[i..], |x|)
  {
    assert t[i..][0..|x|] == t[i..i + |x|];
  }

  lemma Middle(t: Bytes, before: Bytes, x: Bytes, c: byte, rest: Bytes)
    requires t == before + x + [c] + rest && IsDelimiter(c)
    ensures At(t, |before|, x) && Delimited(t, |before| + |x|) && |before| <= |t|
  {}

  lemma Parts(ds: Bytes, frac: Bytes, exp: Bytes)
    ensures ds == [0x30] || (ds != [] && ds[0] != 0x30 && forall k :: 0 <= k < |ds| ==> 0x30 <= ds[k] <= 0x39)
            ==> IsInteger(ds)
    ensures frac != [] && frac[0] == 0x2E && (forall k :: 1 <= k < |frac| ==> 0x30 <= frac[k] <= 0x39)
            ==> IsFraction(frac)
    ensures exp != [] && (exp[0] == 0x65 || exp[0] == 0x45) &&
            ((forall k :: 1 <= k < |exp| ==> 0x30 <= exp[k] <= 0x39) ||
             (|exp| > 1 && (exp[1] == 0x2B || exp[1] == 0x2D) &&
              forall k :: 2 <= k < |exp| ==> 0x30 <= exp[k] <= 0x39))
            ==> IsExponent(exp)
  {}
}
