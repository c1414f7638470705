/**
  The grammar of JSON text as the parser understands it, read by plain recursion on
  positions: what a text stands for, or which error it is refused with and where.

  The text is followed by a NUL, as in a `std::string`, so looking one byte past the end
  finds no character of any interest.
 */
module Reader {
  import opened Bytes
  import opened Numbers
  import opened Json
  import opened Decimals

  const NESTING_LIMIT: nat := 1024

  const SPACE: byte := 0x20
  const TAB: byte := 0x09
  const LINE_FEED: byte := 0x0A
  const RETURN: byte := 0x0D
  const BEGIN_ARRAY: byte := 0x5B
  const BEGIN_OBJECT: byte := 0x7B
  const END_ARRAY: byte := 0x5D
  const END_OBJECT: byte := 0x7D
  const NAME_SEPARATOR: byte := 0x3A
  const VALUE_SEPARATOR: byte := 0x2C
  const QUOTE: byte := 0x22
  const BACKSLASH: byte := 0x5C
  const MINUS: byte := 0x2D
  const PLUS: byte := 0x2B
  const POINT: byte := 0x2E
  const ZERO: byte := 0x30

  /** `JsonParseError::ParseError` */
  datatype ParseError =
    | NoError
    | UnterminatedObject
    | MissingNameSeparator
    | UnterminatedArray
    | MissingValueSeparator
    | IllegalValue
    | TerminationByNumber
    | IllegalNumber
    | IllegalEscapeSequence
    | IllegalUTF8String
    | UnterminatedString
    | MissingObject
    | DeepNesting
    | DocumentTooLarge
    | GarbageAtEnd

  /** Something read, and where reading goes on; or an error, and where reading stopped. */
  datatype Outcome<+T> = Read(value: T, next: nat) | Failed(error: ParseError, at: nat)

  // ---------------------------------------------------------------------
  // Characters and tokens
  // ---------------------------------------------------------------------

  predicate IsSpace(c: byte) {
    c == SPACE || c == TAB || c == LINE_FEED || c == RETURN
  }

  predicate IsStructural(c: byte) {
    c == BEGIN_ARRAY || c == BEGIN_OBJECT || c == NAME_SEPARATOR || c == VALUE_SEPARATOR || c == END_ARRAY
    || c == END_OBJECT
  }

  function SkipSpace(t: Bytes, i: nat): (j: nat)
    requires i <= |t|
    ensures i <= j <= |t|
    ensures j < |t| ==> !IsSpace(t[j])
    ensures forall k :: i <= k < j ==> IsSpace(t[k])
    decreases |t| - i
  {
    if i < |t| && IsSpace(t[i]) then SkipSpace(t, i + 1) else i
  }

  datatype Token = Token(c: byte, next: nat)

  /** `nextToken`: a structural character or a quote; anything else is consumed and reported as 0. */
  function NextToken(t: Bytes, i: nat): (r: Token)
    requires i <= |t|
    ensures i <= r.next <= |t| && (r.c != 0 ==> i < r.next)
  {
    var j := SkipSpace(t, i);
    if j == |t| then Token(0, j)
    else if IsStructural(t[j]) then Token(t[j], SkipSpace(t, j + 1))
    else if t[j] == QUOTE then Token(QUOTE, j + 1)
    else Token(0, j + 1)
  }

  // ---------------------------------------------------------------------
  // Strings
  // ---------------------------------------------------------------------

  function HexDigit(c: byte): (r: Option<nat>)
    ensures r.Some? ==> r.value < 16
  {
    if 0x30 <= c <= 0x39 then Some(c - 0x30)
    else if 0x61 <= c <= 0x66 then Some(c - 0x61 + 10)
    else if 0x41 <= c <= 0x46 then Some(c - 0x41 + 10)
    else None
  }

  /** `n` more hexadecimal digits, after those that make up `c`. */
  function HexDigits(t: Bytes, i: nat, n: nat, c: nat): (r: Outcome<nat>)
    requires i + n <= |t|
    ensures r.Read? ==> r.next == i + n
    ensures r.Failed? ==> r.error == IllegalEscapeSequence
    decreases n
  {
    if n == 0 then Read(c, i)
    else
      match HexDigit(t[i])
      case Some(d) => HexDigits(t, i + 1, n - 1, 16 * c + d)
      case None => Failed(IllegalEscapeSequence, i)
  }

  lemma {:induction false} HexDigitsBound(t: Bytes, i: nat, n: nat, c: nat, bound: nat)
    requires i + n <= |t| && HexDigits(t, i, n, c).Read?
    requires c < bound
    ensures HexDigits(t, i, n, c).value < bound * Power16(n)
    decreases n
  {
    if n > 0 {
      var d := HexDigit(t[i]).value;
      HexDigitsBound(t, i + 1, n - 1, 16 * c + d, 16 * bound);
      FactorMoves(16, bound, Power16(n - 1));
    }
  }

  lemma FactorMoves(a: nat, b: nat, c: nat)
    ensures a * b * c == b * (a * c)
  {}

  function Power16(n: nat): (p: nat) {
    if n == 0 then 1 else 16 * Power16(n - 1)
  }

  /** A code point below 0x10000 in UTF-8. */
  function Utf8(c: nat): (s: Bytes)
    requires c < 0x1_0000
    ensures 1 <= |s| <= 3
  {
    if c < 0x80 then [c]
    else if c < 0x800 then [192 + c / 64, 128 + c % 64]
    else [224 + c / 4096, 128 + c / 64 % 64, 128 + c % 64]
  }

  /** The code point a UTF-8 sequence of up to three bytes stands for (section 3 of RFC 3629). */
  function DecodedUtf8(s: Bytes): Option<nat> {
    if |s| == 1 && s[0] < 0x80 then Some(s[0])
    else if |s| == 2 && 0xC0 <= s[0] < 0xE0 && 0x80 <= s[1] < 0xC0 then
      var lead: nat, next: nat := s[0] - 0xC0, s[1] - 0x80;
      Some(64 * lead + next)
    else if |s| == 3 && 0xE0 <= s[0] < 0xF0 && 0x80 <= s[1] < 0xC0 && 0x80 <= s[2] < 0xC0 then
      var lead: nat, next: nat, last: nat := s[0] - 0xE0, s[1] - 0x80, s[2] - 0x80;
      Some(4096 * lead + 64 * next + last)
    else None
  }

  /** What is written for a code point decodes to it, and is as short as it can be. */
  lemma Utf8Decodes(c: nat)
    requires c < 0x1_0000
    ensures DecodedUtf8(Utf8(c)) == Some(c)
    ensures |Utf8(c)| == if c < 0x80 then 1 else if c < 0x800 then 2 else 3
  {
    if c >= 0x800 {
      assert c / 64 / 64 == c / 4096;
      assert c == c / 64 * 64 + c % 64;
    }
  }

  /** Four digits are read as a number in base 16, letters in either case. */
  lemma FourDigitsValue(t: Bytes, i: nat)
    requires i + 4 <= |t| && forall k :: i <= k < i + 4 ==> HexDigit(t[k]).Some?
    ensures HexDigits(t, i, 4, 0) ==
            Read(4096 * HexDigit(t[i]).value + 256 * HexDigit(t[i + 1]).value
                 + 16 * HexDigit(t[i + 2]).value + HexDigit(t[i + 3]).value, i + 4)
  {
    var a, b := HexDigit(t[i]).value, HexDigit(t[i + 1]).value;
    var c, d := HexDigit(t[i + 2]).value, HexDigit(t[i + 3]).value;
    assert HexDigits(t, i + 3, 1, 256 * a + 16 * b + c) == Read(4096 * a + 256 * b + 16 * c + d, i + 4);
    assert HexDigits(t, i + 2, 2, 16 * a + b) == HexDigits(t, i + 3, 1, 256 * a + 16 * b + c);
    assert HexDigits(t, i + 1, 3, a) == HexDigits(t, i + 2, 2, 16 * a + b);
  }

  predicate IsSurrogate(c: nat) {
    0xD800 <= c < 0xE000
  }

  /** What follows the backslash. An unknown escape stands for the character itself. */
  function ReadEscape(t: Bytes, i: nat): (r: Outcome<Bytes>)
    requires i < |t|
    ensures r.Read? ==> i < r.next <= |t| && 1 <= |r.value| <= 3
    ensures r.Failed? ==> r.error == IllegalEscapeSequence
  {
    var c := t[i];
    if c == 0x62 then Read([0x08], i + 1)
    else if c == 0x66 then Read([0x0C], i + 1)
    else if c == 0x6E then Read([0x0A], i + 1)
    else if c == 0x72 then Read([0x0D], i + 1)
    else if c == 0x74 then Read([0x09], i + 1)
    else if c == 0x75 then
      if i + 5 > |t| then Failed(IllegalEscapeSequence, i + 1)
      else
        match HexDigits(t, i + 1, 4, 0)
        case Failed(e, at) => Failed(e, at)
        case Read(u, next) =>
          HexDigitsBound(t, i + 1, 4, 0, 1);
          assert Power16(4) == 0x1_0000;
          if IsSurrogate(u) then Failed(IllegalEscapeSequence, next) else Read(Utf8(u), next)
    else Read([c], i + 1)
  }

  /** The rest of a string whose beginning stands for `s`; `i` is behind the opening quote. */
  function ReadString(t: Bytes, i: nat, s: Bytes): (r: Outcome<Bytes>)
    requires i <= |t|
    ensures r.Read? ==> i < r.next <= |t| && |s| <= |r.value| <= |s| + (r.next - i - 1)
    decreases |t| - i
  {
    if i == |t| then Failed(UnterminatedString, i + 1)
    else if t[i] == QUOTE then Read(s, i + 1)
    else if t[i] == BACKSLASH then
      if i + 1 == |t| then Failed(IllegalEscapeSequence, i + 1)
      else
        match ReadEscape(t, i + 1)
        case Failed(e, at) => Failed(e, at)
        case Read(x, next) => ReadString(t, next, s + x)
    else ReadString(t, i + 1, s + [t[i]])
  }

  // ---------------------------------------------------------------------
  // Numbers
  // ---------------------------------------------------------------------

  function DigitsEnd(t: Bytes, i: nat): (j: nat)
    requires i <= |t|
    ensures i <= j <= |t|
    ensures forall k :: i <= k < j ==> IsDigit(t[k])
    ensures j < |t| ==> !IsDigit(t[j])
    decreases |t| - i
  {
    if i < |t| && IsDigit(t[i]) then DigitsEnd(t, i + 1) else i
  }

  /** `c` is the next character. */
  predicate Next(t: Bytes, i: nat, c: byte)
    requires i <= |t|
  {
    i < |t| && t[i] == c
  }

  function IntegerEnd(t: Bytes, i: nat): (j: nat)
    requires i <= |t|
    ensures i <= j <= |t|
  {
    var k := if Next(t, i, MINUS) then i + 1 else i;
    if Next(t, k, ZERO) then k + 1 else DigitsEnd(t, k)
  }

  function FractionEnd(t: Bytes, i: nat): (j: nat)
    requires i <= |t|
    ensures i <= j <= |t|
  {
    if Next(t, i, POINT) then DigitsEnd(t, i + 1) else i
  }

  function ExponentEnd(t: Bytes, i: nat): (j: nat)
    requires i <= |t|
    ensures i <= j <= |t|
  {
    if Next(t, i, 0x65) || Next(t, i, 0x45) then
      DigitsEnd(t, if Next(t, i + 1, MINUS) || Next(t, i + 1, PLUS) then i + 2 else i + 1)
    else i
  }

  function NumberEnd(t: Bytes, i: nat): (j: nat)
    requires i <= |t|
    ensures i <= j <= |t|
  {
    ExponentEnd(t, FractionEnd(t, IntegerEnd(t, i)))
  }

  /** `isspace` in the C locale. */
  predicate IsCSpace(c: byte) {
    c == SPACE || 0x09 <= c <= 0x0D
  }

  function SkipCSpace(s: Bytes): (r: Bytes) {
    if s != [] && IsCSpace(s[0]) then SkipCSpace(s[1..]) else s
  }

  /** The value of a letter or digit as a digit in some base; 99 for anything else. */
  function DigitValue(c: byte): (v: nat)
    ensures v < 100
  {
    if IsDigit(c) then c - 0x30
    else if 0x61 <= c <= 0x7A then c - 0x61 + 10
    else if 0x41 <= c <= 0x5A then c - 0x41 + 10
    else 99
  }

  function Accumulate(s: Bytes, base: nat, n: nat): (r: nat) {
    if s != [] && DigitValue(s[0]) < base then Accumulate(s[1..], base, base * n + DigitValue(s[0])) else n
  }

  /**
    The number `strtoll` in base 0 finds at the start of `s`, which ends with a NUL;
    `None` when there is none. Saturation at 64 bits makes no difference to the caller,
    who has no use for numbers from 2^25 on.
   */
  function StrToLL(s: Bytes): (r: Option<int>) {
    var u := SkipCSpace(s);
    var neg := u != [] && u[0] == MINUS;
    var v := if u != [] && (u[0] == MINUS || u[0] == PLUS) then u[1..] else u;
    var n: Option<int> :=
      if |v| > 2 && v[0] == ZERO && (v[1] == 0x78 || v[1] == 0x58) && DigitValue(v[2]) < 16 then
        Some(Accumulate(v[2..], 16, 0))
      else if v != [] && v[0] == ZERO then Some(Accumulate(v, 8, 0))
      else if v != [] && DigitValue(v[0]) < 10 then Some(Accumulate(v, 10, 0))
      else None;
    match n
    case Some(x) => Some(if neg then -x else x)
    case None => None
  }

  const TWO_TO_THE_25: int := 0x200_0000

  // ---------------------------------------------------------------------
  // Values
  // ---------------------------------------------------------------------

  const NULL_TAIL: Bytes := [0x75, 0x6C, 0x6C]
  const TRUE_TAIL: Bytes := [0x72, 0x75, 0x65]
  const FALSE_TAIL: Bytes := [0x61, 0x6C, 0x73, 0x65]

  /** The position behind the first character that differs from `tail`, or behind all of it. */
  function MatchEnd(t: Bytes, i: nat, tail: Bytes): (r: Outcome<()>)
    requires i + |tail| <= |t|
    ensures r.Read? ==> r.next == i + |tail|
    ensures r.Failed? ==> i < r.at <= i + |tail|
    decreases |tail|
  {
    if tail == [] then Read((), i)
    else if t[i] == tail[0] then MatchEnd(t, i + 1, tail[1..])
    else Failed(IllegalValue, i + 1)
  }

  /** The rest of a literal name. One more character is asked for than the name has. */
  function ReadLiteral(t: Bytes, i: nat, tail: Bytes, v: Json): (r: Outcome<Json>)
    requires i <= |t|
    ensures r.Read? ==> i <= r.next <= |t|
  {
    if |t| - i <= |tail| then Failed(IllegalValue, i)
    else
      match MatchEnd(t, i, tail)
      case Read(_, next) => Read(v, next)
      case Failed(e, at) => Failed(e, at)
  }

  /**
    A text together with `strtod` of the C library, which is given all of the text from
    the number on: the double it finds there, or `None` for no number or an infinite one.
   */
  datatype Source = Source(t: Bytes, strtod: Bytes -> Option<Double>) {

    function ReadNumber(i: nat): (r: Outcome<Json>)
      requires i <= |t|
      ensures r.Read? ==> i <= r.next < |t| && r.value.Num?
    {
      var e := NumberEnd(t, i);
      if e == |t| then Failed(TerminationByNumber, e)
      else
        var n := if e == IntegerEnd(t, i) then StrToLL(t[i..]) else None;
        if n.Some? && -TWO_TO_THE_25 < n.value < TWO_TO_THE_25 then Read(Num(Int(n.value)), e)
        else
          match strtod(t[i..])
          case Some(d) => Read(Num(Canonical(d)), e)
          case None => Failed(IllegalNumber, e)
    }

    /** A value at nesting level `depth`. */
    function ReadValue(i: nat, depth: nat): (r: Outcome<Json>)
      requires i <= |t|
      ensures r.Read? ==> i <= r.next <= |t|
      decreases |t| - i, 0
    {
      if i == |t| then ReadNumber(i)
      else if t[i] == 0x6E then ReadLiteral(t, i + 1, NULL_TAIL, Null)
      else if t[i] == 0x74 then ReadLiteral(t, i + 1, TRUE_TAIL, Bool(true))
      else if t[i] == 0x66 then ReadLiteral(t, i + 1, FALSE_TAIL, Bool(false))
      else if t[i] == QUOTE then
        match ReadString(t, i + 1, [])
        case Read(s, next) => Read(Str(s), next)
        case Failed(e, at) => Failed(e, at)
      else if t[i] == BEGIN_ARRAY then ReadArray(i + 1, depth)
      else if t[i] == BEGIN_OBJECT then ReadObject(i + 1, depth)
      else if t[i] == END_ARRAY then Failed(MissingObject, i + 1)
      else ReadNumber(i)
    }

    /** An array at nesting level `depth`, behind its opening bracket. */
    function ReadArray(i: nat, depth: nat): (r: Outcome<Json>)
      requires i <= |t|
      ensures r.Read? ==> i <= r.next <= |t| && r.value.Arr?
      decreases |t| - i, 3
    {
      if depth >= NESTING_LIMIT then Failed(DeepNesting, i)
      else
        var j := SkipSpace(t, i);
        if j == |t| then Failed(UnterminatedArray, j)
        else if t[j] == END_ARRAY then Read(Arr([]), NextToken(t, j).next)
        else ReadItems(j, depth + 1, [])
    }

    /** The rest of an array that has items `vs` so far. */
    function ReadItems(i: nat, depth: nat, vs: seq<Json>): (r: Outcome<Json>)
      requires i <= |t|
      ensures r.Read? ==> i <= r.next <= |t| && r.value.Arr?
      decreases |t| - i, 2
    {
      match ReadValue(i, depth)
      case Failed(e, at) => Failed(e, at)
      case Read(v, j) =>
        var token := NextToken(t, j);
        if token.c == END_ARRAY then Read(Arr(vs + [v]), token.next)
        else if token.c == VALUE_SEPARATOR then ReadItems(token.next, depth, vs + [v])
        else
          var k := SkipSpace(t, token.next);
          Failed(if k == |t| then UnterminatedArray else MissingValueSeparator, k)
    }

    lemma ItemsStep(i: nat, depth: nat, vs: seq<Json>)
      requires i <= |t|
      ensures var r := ReadValue(i, depth);
              ReadItems(i, depth, vs) ==
              if r.Failed? then Failed(r.error, r.at)
              else
                var token := NextToken(t, r.next);
                if token.c == END_ARRAY then Read(Arr(vs + [r.value]), token.next)
                else if token.c == VALUE_SEPARATOR then ReadItems(token.next, depth, vs + [r.value])
                else
                  var k := SkipSpace(t, token.next);
                  Failed(if k == |t| then UnterminatedArray else MissingValueSeparator, k)
    {}

    /** An object at nesting level `depth`, behind its opening brace. */
    function ReadObject(i: nat, depth: nat): (r: Outcome<Json>)
      requires i <= |t|
      ensures r.Read? ==> i <= r.next <= |t| && r.value.Obj?
      decreases |t| - i, 4
    {
      if depth >= NESTING_LIMIT then Failed(DeepNesting, i) else ReadMembers(NextToken(t, i), depth + 1, [])
    }

    /**
      The rest of an object that has members `ms` so far and goes on with `token`. A later
      member takes the place of an earlier one with the same key.
     */
    function ReadMembers(token: Token, depth: nat, ms: seq<Member>): (r: Outcome<Json>)
      requires token.next <= |t|
      ensures r.Read? ==> token.next <= r.next <= |t| && r.value.Obj?
      decreases |t| - token.next, 3
    {
      if token.c != QUOTE then
        if token.c == END_OBJECT then Read(Obj(ms), token.next) else Failed(UnterminatedObject, token.next)
      else
        match ReadMember(token.next, depth)
        case Failed(e, at) => Failed(e, at)
        case Read(m, j) =>
          var next := NextToken(t, j);
          if next.c != VALUE_SEPARATOR then
            if next.c == END_OBJECT then Read(Obj(Put(ms, m.0, m.1)), next.next)
            else Failed(UnterminatedObject, next.next)
          else
            var first := NextToken(t, next.next);
            if first.c == END_OBJECT then Failed(MissingObject, first.next)
            else ReadMembers(first, depth, Put(ms, m.0, m.1))
    }

    lemma TooDeep(i: nat, depth: nat)
      requires i <= |t| && depth >= NESTING_LIMIT
      ensures ReadArray(i, depth) == ReadObject(i, depth) == Failed(DeepNesting, i)
    {}

    lemma ObjectStep(i: nat, depth: nat)
      requires i <= |t|
      ensures ReadObject(i, depth) ==
              if depth >= NESTING_LIMIT then Failed(DeepNesting, i) else ReadMembers(NextToken(t, i), depth + 1, [])
    {}

    lemma MembersEnd(token: Token, depth: nat, ms: seq<Member>)
      requires token.next <= |t| && token.c != QUOTE
      ensures ReadMembers(token, depth, ms) ==
              if token.c == END_OBJECT then Read(Obj(ms), token.next) else Failed(UnterminatedObject, token.next)
    {}

    lemma MembersStep(token: Token, depth: nat, ms: seq<Member>)
      requires token.next <= |t| && token.c == QUOTE
      ensures var r := ReadMember(token.next, depth);
              ReadMembers(token, depth, ms) ==
              if r.Failed? then Failed(r.error, r.at)
              else
                var next := NextToken(t, r.next);
                var first := NextToken(t, next.next);
                var ms' := Put(ms, r.value.0, r.value.1);
                if next.c == END_OBJECT then Read(Obj(ms'), next.next)
                else if next.c != VALUE_SEPARATOR then Failed(UnterminatedObject, next.next)
                else if first.c == END_OBJECT then Failed(MissingObject, first.next)
                else ReadMembers(first, depth, ms')
    {}

    /** A member, behind the opening quote of its key. */
    function ReadMember(i: nat, depth: nat): (r: Outcome<Member>)
      requires i <= |t|
      ensures r.Read? ==> i < r.next <= |t|
      decreases |t| - i, 1
    {
      match ReadString(t, i, [])
      case Failed(e, at) => Failed(e, at)
      case Read(key, j) =>
        var token := NextToken(t, j);
        if token.c != NAME_SEPARATOR then Failed(MissingNameSeparator, token.next)
        else
          match ReadValue(token.next, depth)
          case Failed(e, at) => Failed(e, at)
          case Read(v, next) => Read((key, v), next)
    }

    function AfterBOM(): (i: nat)
      ensures i <= |t|
    {
      if |t| > 3 && t[0] == 0xEF && t[1] == 0xBB && t[2] == 0xBF then 3 else 0
    }

    /** A whole document: an array or an object, with nothing but space around it. */
    function ReadDocument(): (r: Outcome<Json>)
      ensures r.Read? ==> r.next == |t| && (r.value.Arr? || r.value.Obj?)
    {
      var token := NextToken(t, AfterBOM());
      if token.c != BEGIN_ARRAY && token.c != BEGIN_OBJECT then Failed(IllegalValue, token.next)
      else
        match if token.c == BEGIN_ARRAY then ReadArray(token.next, 0) else ReadObject(token.next, 0)
        case Failed(e, at) => Failed(e, at)
        case Read(v, next) =>
          var j := SkipSpace(t, next);
          if j < |t| then Failed(GarbageAtEnd, j) else Read(v, j)
    }
  }
}
