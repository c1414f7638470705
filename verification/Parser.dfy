/**
  The recursive-descent parser that writes a document straight into a growing buffer. Each
  method is held against the function of `Reader` that reads the same piece of text.
 */
module Parser {
  import opened Bytes
  import opened Numbers
  import opened Json
  import opened Decimals
  import opened Arena
  import opened Blocks
  import opened Layout
  import opened Search
  import opened Reader
  import opened Payloads
  import opened Binary
  import opened Store

  /** Texts up to here need less than 2^31 bytes of buffer, so the parser's `int` sizes do not overflow. */
  const MAX_TEXT: nat := 0x380_0000

  /** The first `n` bytes are what they were. */
  predicate Kept(before: Bytes, n: nat, after: Bytes) {
    n <= |before| && n <= |after| && after[..n] == before[..n]
  }

  lemma KeptItself(a: Bytes, n: nat)
    requires n <= |a|
    ensures Kept(a, n, a)
  {}

  lemma KeptLess(a: Bytes, n: nat, b: Bytes, m: nat)
    requires Kept(a, n, b) && m <= n
    ensures Kept(a, m, b)
  {
    assert a[..m] == a[..n][..m] && b[..m] == b[..n][..m];
  }

  lemma KeptSlice(a: Bytes, n: nat, b: Bytes, i: nat, j: nat)
    requires Kept(a, n, b) && i <= j <= n
    ensures a[i..j] == b[i..j]
  {
    SubSlice(a, b, 0, n, i, j);
  }

  lemma KeptTrans(a: Bytes, n: nat, b: Bytes, m: nat, c: Bytes)
    requires Kept(a, n, b) && Kept(b, m, c) && n <= m
    ensures Kept(a, n, c)
  {
    KeptLess(b, m, c, n);
  }

  /** What was there, and what has been appended since. */
  lemma Appended(a: Bytes, n: nat, b: Bytes, lo: nat, m: nat)
    requires Kept(a, n, b) && lo <= n <= m <= |b|
    ensures b[lo..m] == a[lo..n] + b[n..m]
  {
    KeptSlice(a, n, b, lo, n);
    assert b[lo..m] == b[lo..n] + b[n..m];
  }

  class Parser {
    const src: Source
    var json: nat
    var data: Bytes
    var current: nat
    var nestingLevel: nat
    var lastError: ParseError

    /** `dataLength` is the length of `data`; neither it nor `current` gets near 2^31. */
    ghost predicate Valid()
      reads this
    {
      && |src.t| <= MAX_TEXT && json <= |src.t| + 1
      && FILE_HEADER <= current <= |data| < 0x8000_0000
    }

    /** Room for what is still to be read, at no more than 12 bytes a character. */
    ghost predicate Within(slack: int)
      reads this
    {
      current <= 12 * json + slack
    }

    /** Appended to the buffer, at no more than 12 bytes a character consumed and some slack. */
    ghost predicate Wrote(data0: Bytes, current0: nat, json0: nat, slack: int)
      reads this
    {
      && Valid() && Kept(data0, current0, data) && current0 <= current && json0 <= json
      && current - current0 <= 12 * (json - json0) + slack
    }

    /** The parser stopped where and why the reading did, or because the document got too large. */
    ghost predicate Refused<T>(r: Outcome<T>)
      reads this
    {
      (r.Failed? && lastError == r.error && json == r.at) || (lastError == DocumentTooLarge && current >= MAX_SIZE)
    }

    lemma NothingWritten(slack: nat)
      requires Valid()
      ensures Wrote(data, current, json, slack)
    {}

    lemma WroteIsValid(data0: Bytes, current0: nat, json0: nat, slack: int)
      requires Wrote(data0, current0, json0, slack)
      ensures Valid() && current0 <= current
    {}

    lemma TooLarge<T>(r: Outcome<T>)
      requires lastError == DocumentTooLarge && current >= MAX_SIZE
      ensures Refused(r)
    {}

    constructor (src: Source)
      requires |src.t| <= MAX_TEXT
      ensures this.src == src && json == 0 && data == [] && current == 0 && nestingLevel == 0 && lastError == NoError
    {
      this.src := src;
      json := 0;
      data := [];
      current := 0;
      nestingLevel := 0;
      lastError := NoError;
    }

    // -------------------------------------------------------------------
    // Memory
    // -------------------------------------------------------------------

    method ReserveSpace(space: nat) returns (pos: nat)
      requires Valid() && current + space <= 12 * |src.t| + 44
      modifies this`data, this`current
      ensures Valid() && pos == old(current) && current == pos + space
      ensures Kept(old(data), pos, data)
    {
      if current + space >= |data| {
        var more := Junk(|data| + space);
        data := data + more;
      }
      pos := current;
      current := current + space;
    }

    /** What has been written so far. */
    ghost function Out(): Bytes
      requires current <= |data|
      reads this`data, this`current
    {
      data[..current]
    }

    method AddChar(c: byte)
      requires Valid() && current < 12 * |src.t| + 44
      modifies this`data, this`current
      ensures Valid() && Out() == old(Out()) + [c]
    {
      var pos := ReserveSpace(1);
      data := data[pos := c];
    }

    // -------------------------------------------------------------------
    // Tokens
    // -------------------------------------------------------------------

    method EatBOM()
      requires json == 0
      modifies this`json
      ensures json == src.AfterBOM()
    {
      if |src.t| - json > 3 && src.t[json] == 0xEF && src.t[json + 1] == 0xBB && src.t[json + 2] == 0xBF {
        json := json + 3;
      }
    }

    method EatSpace() returns (more: bool)
      requires json <= |src.t|
      modifies this`json
      ensures json == SkipSpace(src.t, old(json)) && more == (json < |src.t|)
    {
      while json < |src.t|
        invariant json <= |src.t| && SkipSpace(src.t, json) == SkipSpace(src.t, old(json))
        decreases |src.t| - json
      {
        if src.t[json] > SPACE {
          break;
        }
        if src.t[json] != SPACE && src.t[json] != TAB && src.t[json] != LINE_FEED && src.t[json] != RETURN {
          break;
        }
        json := json + 1;
      }
      more := json < |src.t|;
    }

    method NextTok() returns (token: byte)
      requires json <= |src.t|
      modifies this`json
      ensures Token(token, json) == NextToken(src.t, old(json))
    {
      var more := EatSpace();
      if !more {
        return 0;
      }
      token := src.t[json];
      json := json + 1;
      if IsStructural(token) {
        more := EatSpace();
      } else if token != QUOTE {
        token := 0;
      }
    }

    // -------------------------------------------------------------------
    // Strings
    // -------------------------------------------------------------------

    /** `addHexDigit`, four times. */
    method ParseHex() returns (ok: bool, c: nat)
      requires json + 4 <= |src.t|
      modifies this`json
      ensures json <= |src.t| && old(json) <= json
      ensures var r := HexDigits(src.t, old(json), 4, 0);
              if ok then r == Read(c, json) else r == Failed(IllegalEscapeSequence, json)
    {
      c := 0;
      for i := 0 to 4
        invariant json == old(json) + i
        invariant HexDigits(src.t, json, 4 - i, c) == HexDigits(src.t, old(json), 4, 0)
      {
        var d := HexDigit(src.t[json]);
        if d.None? {
          return false, c;
        }
        c := 16 * c + d.value;
        json := json + 1;
      }
      ok := true;
    }

    method AddUtf8(c: nat)
      requires c < 0x1_0000 && Valid() && current + 3 <= 12 * |src.t| + 44
      modifies this`data, this`current
      ensures Valid() && Out() == old(Out()) + Utf8(c)
    {
      if c < 0x80 {
        AddChar(c);
      } else if c < 0x800 {
        AddChar(192 + c / 64);
        AddChar(128 + c % 64);
      } else {
        AddChar(224 + c / 4096);
        AddChar(128 + c / 64 % 64);
        AddChar(128 + c % 64);
      }
    }

    /** The single-character escapes, and the default. */
    function Unescaped(c: byte): byte {
      if c == 0x62 then 0x08
      else if c == 0x66 then 0x0C
      else if c == 0x6E then 0x0A
      else if c == 0x72 then 0x0D
      else if c == 0x74 then 0x09
      else c
    }

    method ParseEscapeSequence() returns (ok: bool, ghost x: Bytes)
      requires Valid() && json < |src.t| && current + 3 <= 12 * |src.t| + 44
      modifies this`json, this`data, this`current
      ensures Valid() && old(json) < json <= |src.t| && Out() == old(Out()) + x && |x| <= 3
      ensures ReadEscape(src.t, old(json)) == if ok then Read(x, json) else Failed(IllegalEscapeSequence, json)
    {
      hide HexDigits, Utf8;
      var escaped := src.t[json];
      json := json + 1;
      x := [];
      if escaped != 0x75 {
        x := [Unescaped(escaped)];
        AddChar(Unescaped(escaped));
        return true, x;
      }
      if json + 4 > |src.t| {
        return false, x;
      }
      ghost var at := json;
      var c;
      ok, c := ParseHex();
      if !ok {
        return;
      }
      HexDigitsBound(src.t, at, 4, 0, 1);
      assert Power16(4) == 0x1_0000;
      if IsSurrogate(c) {
        return false, x;
      }
      x := Utf8(c);
      AddUtf8(c);
    }

    /** The quick pass: up to the first quote or backslash, or the end. */
    method ScanString() returns (stop: nat)
      requires json <= |src.t|
      ensures json <= stop <= |src.t|
      ensures stop < |src.t| ==> src.t[stop] == QUOTE || src.t[stop] == BACKSLASH
      ensures ReadString(src.t, json, []) == ReadString(src.t, stop, src.t[json..stop])
    {
      hide ReadString;
      stop := json;
      assert src.t[json..stop] == [];
      while stop < |src.t| && src.t[stop] != QUOTE && src.t[stop] != BACKSLASH
        invariant json <= stop <= |src.t|
        invariant ReadString(src.t, json, []) == ReadString(src.t, stop, src.t[json..stop])
      {
        PlainCharacter(src.t, json, stop);
        stop := stop + 1;
      }
    }

    method ParseString() returns (ok: bool)
      requires Valid() && json <= |src.t| && Within(8) && current % 4 == 0
      modifies this`json, this`data, this`current, this`lastError
      ensures Valid() && Kept(old(data), old(current), data) && old(current) <= current && old(json) <= json
      ensures current - old(current) <= 12 * (json - old(json)) + if ok then 0 else 4
      ensures var r := ReadString(src.t, old(json), []);
              if ok then r.Read? && json == r.next && current % 4 == 0
                         && IsStringStorage(data[old(current)..current], r.value)
              else r == Failed(lastError, json)
    {
      hide Kept, ReadString, IsStringStorage;
      KeptItself(data, current);
      var stop := ScanString();
      StringEnds(src.t, stop, src.t[json..stop]);
      if stop == |src.t| {
        json := stop + 1;
        lastError := UnterminatedString;
        return false;
      }
      if src.t[stop] == QUOTE {
        StoreString(src.t[json..stop]);
        json := stop + 1;
        return true;
      }
      ok := ParseEscapedString();
    }

    method StoreString(s: Bytes)
      requires Valid() && |s| <= |src.t| && current + 4 + Align4(|s|) <= 12 * |src.t| + 44
      modifies this`data, this`current
      ensures Valid() && Kept(old(data), old(current), data) && current == old(current) + 4 + Align4(|s|)
      ensures IsStringStorage(data[old(current)..current], s)
    {
      var pos := ReserveSpace(4 + Align4(|s|));
      hide U32, LE4;
      var d1 := data;
      data := Write(data, pos, LE4(|s|) + s);
      StringWritten(d1, pos, s, current);
    }

    /** One turn of the second pass: copy a character, or decode an escape. */
    method CopyChar(ghost s: Bytes) returns (ok: bool, ghost x: Bytes)
      requires Valid() && json < |src.t| && src.t[json] != QUOTE && current + 3 <= 12 * |src.t| + 44
      modifies this`json, this`data, this`current, this`lastError
      ensures Valid() && old(json) < json <= |src.t| && Out() == old(Out()) + x && |x| <= 3
      ensures ReadString(src.t, old(json), s) == if ok then ReadString(src.t, json, s + x) else Failed(lastError, json)
    {
      hide ReadEscape;
      ok, x := true, [];
      if src.t[json] == BACKSLASH {
        json := json + 1;
        if json == |src.t| {
          lastError := IllegalEscapeSequence;
          return false, x;
        }
        ok, x := ParseEscapeSequence();
        if !ok {
          lastError := IllegalEscapeSequence;
        }
      } else {
        x := [src.t[json]];
        AddChar(src.t[json]);
        json := json + 1;
      }
    }

    /** The second pass, which decodes as it copies. */
    method ParseEscapedString() returns (ok: bool)
      requires Valid() && json <= |src.t| && Within(8) && current % 4 == 0
      modifies this`json, this`data, this`current, this`lastError
      ensures Valid() && Kept(old(data), old(current), data) && old(current) <= current && old(json) <= json
      ensures current - old(current) <= 12 * (json - old(json)) + if ok then 0 else 4
      ensures var r := ReadString(src.t, old(json), []);
              if ok then r.Read? && json == r.next && current % 4 == 0
                         && IsStringStorage(data[old(current)..current], r.value)
              else r == Failed(lastError, json)
    {
      hide IsStringStorage, ReadString, Kept;
      ghost var j0, s := json, [];
      var outStart := ReserveSpace(4);
      ghost var data0, head := old(data), Out();
      KeptCut(data0, outStart, data, current);
      while true
        invariant Valid() && json <= |src.t| && j0 <= json
        invariant outStart == old(current) && |head| == outStart + 4 && Kept(old(data), outStart, head)
        invariant Out() == head + s && |s| <= 3 * (json - j0)
        invariant ReadString(src.t, j0, []) == ReadString(src.t, json, s)
        decreases |src.t| - json
      {
        StringEnds(src.t, json, s);
        if json == |src.t| {
          json := json + 1;
          lastError := UnterminatedString;
          OutIs(data0, data, current, head, s, outStart);
          return false;
        }
        if src.t[json] == QUOTE {
          json := json + 1;
          OutIs(data0, data, current, head, s, outStart);
          ghost var d := data;
          FinishString(outStart);
          KeptTrans(data0, outStart, d, outStart, data);
          return true;
        }
        ghost var x;
        ok, x := CopyChar(s);
        s := s + x;
        if !ok {
          OutIs(data0, data, current, head, s, outStart);
          return;
        }
      }
    }

    /** Fill in the length in front of the decoded bytes, and pad them. */
    method FinishString(outStart: nat)
      requires Valid() && outStart % 4 == 0 && FILE_HEADER <= outStart && outStart + 4 <= current
      requires current + 3 <= 12 * |src.t| + 44
      modifies this`data, this`current
      ensures Valid() && Kept(old(data), outStart, data)
          && current == outStart + 4 + Align4(old(current) - outStart - 4)
      ensures IsStringStorage(data[outStart..current], old(data[outStart + 4..current]))
    {
      hide U32, LE4;
      var len: nat := current - outStart - 4;
      ghost var s, d, c := data[outStart + 4..current], data, current;
      data := Write(data, outStart, LE4(len));
      ghost var d1 := data;
      SubSlice(d, d1, outStart + 4, |d|, outStart + 4, c);
      var pad := ReserveSpace((4 - current) % 4);
      KeptSlice(d1, c, data, 0, outStart);
      KeptSlice(d1, c, data, outStart, outStart + 4);
      KeptSlice(d1, c, data, outStart + 4, c);
      Align4Unique(outStart, c, current, len);
      StringThere(data, outStart, s, current);
    }

    // -------------------------------------------------------------------
    // Numbers
    // -------------------------------------------------------------------

    method ScanDigits()
      requires json <= |src.t|
      modifies this`json
      ensures json == DigitsEnd(src.t, old(json))
    {
      while json < |src.t| && IsDigit(src.t[json])
        invariant json <= |src.t| && DigitsEnd(src.t, json) == DigitsEnd(src.t, old(json))
        decreases |src.t| - json
      {
        json := json + 1;
      }
    }

    method ScanInteger()
      requires json <= |src.t|
      modifies this`json
      ensures json == IntegerEnd(src.t, old(json))
    {
      if json < |src.t| && src.t[json] == MINUS {
        json := json + 1;
      }
      if json < |src.t| && src.t[json] == ZERO {
        json := json + 1;
      } else {
        ScanDigits();
      }
    }

    /** `frac`; answers whether there was one. */
    method ScanFraction() returns (found: bool)
      requires json <= |src.t|
      modifies this`json
      ensures json == FractionEnd(src.t, old(json)) && found == (json != old(json))
    {
      found := json < |src.t| && src.t[json] == POINT;
      if found {
        json := json + 1;
        ScanDigits();
      }
    }

    /** `exp`; answers whether there was one. */
    method ScanExponent() returns (found: bool)
      requires json <= |src.t|
      modifies this`json
      ensures json == ExponentEnd(src.t, old(json)) && found == (json != old(json))
    {
      found := json < |src.t| && (src.t[json] == 0x65 || src.t[json] == 0x45);
      if found {
        json := json + 1;
        if json < |src.t| && (src.t[json] == MINUS || src.t[json] == PLUS) {
          json := json + 1;
        }
        ScanDigits();
      }
    }

    method ScanNumber() returns (isInt: bool)
      requires json <= |src.t|
      modifies this`json
      ensures json == NumberEnd(src.t, old(json))
      ensures isInt == (json == IntegerEnd(src.t, old(json)))
    {
      hide IntegerEnd, FractionEnd, ExponentEnd;
      ScanInteger();
      var hasFraction := ScanFraction();
      var hasExponent := ScanExponent();
      isInt := !hasFraction && !hasExponent;
    }

    method ParseNumber(base: nat) returns (ok: bool, w: word)
      requires Valid() && json <= |src.t| && Within(8) && base % 4 == 0 && current % 4 == 0 && base + HEADER <= current
      modifies this`json, this`data, this`current, this`lastError
      ensures Valid() && Kept(old(data), old(current), data) && old(current) <= current && old(json) <= json
      ensures current - old(current) <= 8 && current % 4 == 0
      ensures var r := src.ReadNumber(old(json));
              if ok then r.Read? && json == r.next
                         && IsPayload(old(current) - base - HEADER, data[old(current)..current], w, r.value)
              else Refused(r)
    {
      hide IsPayload, StrToLL, Canonical, NumberEnd, IntegerEnd;
      var start := json;
      w := 0;
      var isInt := ScanNumber();
      if json == |src.t| {
        lastError := TerminationByNumber;
        return false, w;
      }
      if isInt {
        var n := StrToLL(src.t[start..]);
        if n.Some? && n.value < TWO_TO_THE_25 && n.value > -TWO_TO_THE_25 {
          w := PackWord(0, T_DOUBLE, true, n.value);
          IntPayload(current - base - HEADER, n.value);
          assert data[old(current)..current] == [];
          return true, w;
        }
      }
      var d := src.strtod(src.t[start..]);
      if d.None? {
        lastError := IllegalNumber;
        return false, w;
      }
      ok, w := StoreDouble(base, d.value);
    }

    method StoreDouble(base: nat, d: Double) returns (ok: bool, w: word)
      requires Valid() && base % 4 == 0 && current % 4 == 0 && base + HEADER <= current
      requires current + 8 <= 12 * |src.t| + 44
      modifies this`data, this`current, this`lastError
      ensures Valid() && Kept(old(data), old(current), data) && current == old(current) + 8
      ensures if ok then IsPayload(old(current) - base - HEADER, data[old(current)..current], w, Num(Canonical(d)))
              else lastError == DocumentTooLarge && current >= MAX_SIZE
    {
      hide IsPayload, Canonical;
      w := 0;
      var pos := ReserveSpace(8);
      data := Write(data, pos, d);
      if current - base >= MAX_SIZE {
        lastError := DocumentTooLarge;
        return false, w;
      }
      w := PackWord(0, T_DOUBLE, false, pos - base);
      PackedFields(0, T_DOUBLE, false, pos - base);
      DoublePayload(pos - base - HEADER, d, w);
      ok := true;
    }

    // -------------------------------------------------------------------
    // Values
    // -------------------------------------------------------------------

    /** The rest of `null`, `true` or `false`. */
    method ParseLiteral(tail: Bytes, ghost v: Json) returns (ok: bool)
      requires Valid() && json <= |src.t|
      modifies this`json, this`lastError
      ensures old(json) <= json <= |src.t|
      ensures ReadLiteral(src.t, old(json), tail, v) == if ok then Read(v, json) else Failed(lastError, json)
    {
      if |src.t| - json < |tail| + 1 {
        lastError := IllegalValue;
        return false;
      }
      for i := 0 to |tail|
        invariant json == old(json) + i
        invariant MatchEnd(src.t, old(json), tail) == MatchEnd(src.t, json, tail[i..])
      {
        json := json + 1;
        if src.t[json - 1] != tail[i] {
          lastError := IllegalValue;
          return false;
        }
      }
      ok := true;
    }

    /** A value without payload. */
    method ParseLiteralValue(n: nat, tail: Bytes, type_: nat, value: nat, ghost v: Json) returns (ok: bool, w: word)
      requires Valid() && json <= |src.t|
      requires (type_ == T_NULL && value == 0 && v == Null) || (type_ == T_BOOL && value <= 1 && v == Bool(value == 1))
      modifies this`json, this`lastError
      ensures old(json) <= json <= |src.t|
      ensures ReadLiteral(src.t, old(json), tail, v) == if ok then Read(v, json) else Failed(lastError, json)
      ensures IsPayload(n, [], w, v)
    {
      hide ReadLiteral, IsPayload;
      w := PackWord(0, type_, false, value);
      PackedFields(0, type_, false, value);
      WordPayload(n, w, v);
      ok := ParseLiteral(tail, v);
    }

    method ParseStringValue(base: nat) returns (ok: bool, w: word)
      requires Valid() && json <= |src.t| && Within(-4)
      requires base % 4 == 0 && current % 4 == 0 && FILE_HEADER <= base && base + HEADER <= current
      modifies this`json, this`data, this`current, this`lastError
      ensures Wrote(old(data), old(current), old(json), 4)
      ensures var r := ReadString(src.t, old(json), []);
              if ok then r.Read? && json == r.next && current % 4 == 0
                         && IsPayload(old(current) - base - HEADER, data[old(current)..current], w, Str(r.value))
              else Refused(r)
    {
      hide ReadString, IsPayload, IsStringStorage, Kept, PackWord;
      KeptItself(data, current);
      w := 0;
      if current - base >= MAX_SIZE {
        lastError := DocumentTooLarge;
        return false, w;
      }
      var off := current - base;
      ghost var r := ReadString(src.t, json, []);
      ok := ParseString();
      if ok {
        w := PackWord(0, T_STRING, false, off);
        PackedFields(0, T_STRING, false, off);
        StringPayload(off - HEADER, data[old(current)..current], r.value, w);
      }
    }

    /** An array or object inside another one, behind its opening bracket or brace. */
    method ParseContainerValue(base: nat, isObject: bool) returns (ok: bool, w: word)
      requires Valid() && json <= |src.t| && Within(-4)
      requires base % 4 == 0 && current % 4 == 0 && FILE_HEADER <= base && base + HEADER <= current
      modifies this
      ensures Wrote(old(data), old(current), old(json), 20)
      ensures var r := if isObject then src.ReadObject(old(json), old(nestingLevel))
                       else src.ReadArray(old(json), old(nestingLevel));
              if ok then r.Read? && json == r.next && current % 4 == 0 && nestingLevel == old(nestingLevel)
                         && IsPayload(old(current) - base - HEADER, data[old(current)..current], w, r.value)
              else Refused(r)
      decreases |src.t| + 1 - json, 5
    {
      hide IsPayload, Doc, Source.ReadArray, Source.ReadObject, Kept, PackWord, Wrote, Refused, MAX_TEXT;
      w := 0;
      if current - base >= MAX_SIZE {
        lastError := DocumentTooLarge;
        NothingWritten(20);
        TooLarge(if isObject then src.ReadObject(json, nestingLevel) else src.ReadArray(json, nestingLevel));
        return false, w;
      }
      var off := current - base;
      w := PackWord(0, if isObject then T_OBJECT else T_ARRAY, false, off);
      if isObject {
        ok := ParseObject();
      } else {
        ok := ParseArray();
      }
      if ok {
        WroteIsValid(old(data), old(current), old(json), 20);
        ContainerPayload(off, data[old(current)..current], isObject);
      }
    }

    method ParseValue(base: nat) returns (ok: bool, w: word)
      requires Valid() && json <= |src.t| && Within(8)
      requires base % 4 == 0 && current % 4 == 0 && FILE_HEADER <= base && base + HEADER <= current
      modifies this
      ensures Wrote(old(data), old(current), old(json), 8)
      ensures var r := src.ReadValue(old(json), old(nestingLevel));
              if ok then r.Read? && json == r.next && current % 4 == 0 && nestingLevel == old(nestingLevel)
                         && IsPayload(old(current) - base - HEADER, data[old(current)..current], w, r.value)
              else Refused(r)
      decreases |src.t| + 1 - json, 0
    {
      hide IsPayload, ReadString, ReadLiteral, Kept, Source.ReadNumber, Source.ReadArray, Source.ReadObject;
      KeptItself(data, current);
      var n := current - base - HEADER;
      assert data[current..current] == [];
      var c := if json < |src.t| then src.t[json] else 0;
      json := json + 1;
      if c == 0x6E {
        ok, w := ParseLiteralValue(n, NULL_TAIL, T_NULL, 0, Null);
      } else if c == 0x74 {
        ok, w := ParseLiteralValue(n, TRUE_TAIL, T_BOOL, 1, Bool(true));
      } else if c == 0x66 {
        ok, w := ParseLiteralValue(n, FALSE_TAIL, T_BOOL, 0, Bool(false));
      } else if c == QUOTE {
        ok, w := ParseStringValue(base);
      } else if c == BEGIN_ARRAY {
        ok, w := ParseContainerValue(base, false);
      } else if c == BEGIN_OBJECT {
        ok, w := ParseContainerValue(base, true);
      } else if c == END_ARRAY {
        lastError := MissingObject;
        ok, w := false, 0;
      } else {
        json := json - 1;
        ok, w := ParseNumber(base);
      }
    }

    // -------------------------------------------------------------------
    // Containers
    // -------------------------------------------------------------------

    method AppendTable(words: seq<word>) returns (table: nat)
      requires Valid() && words != [] && current + 4 * |words| <= 12 * |src.t| + 44
      modifies this`data, this`current
      ensures Valid() && table == old(current) && current == table + 4 * |words|
      ensures Kept(old(data), table, data) && data[table..current] == TableBytes(words)
    {
      hide TableBytes, Write;
      table := ReserveSpace(4 * |words|);
      data := Write(data, table, TableBytes(words));
    }

    /** Append the table and fill in the header of the container at `base`. */
    method Finish(base: nat, isObject: bool, words: seq<word>)
      requires Valid() && FILE_HEADER <= base && base % 4 == 0 && current % 4 == 0 && base + HEADER <= current
      requires current + 4 * |words| <= 12 * |src.t| + 44
      modifies this`data, this`current
      ensures Valid() && Kept(old(data), base, data) && current == old(current) + 4 * |words|
      ensures Split(data[base..current]) ==
              Some(Parts(isObject, if words == [] then [] else old(data[base + HEADER..current]), words))
    {
      hide U32, Words, TableBytes, Split, Header, Write, Kept;
      ghost var data0, c0 := data, current;
      var table := base;
      KeptItself(data, current);
      if words != [] {
        table := AppendTable(words);
      }
      ghost var data1 := data;
      data := Write(data, base, Header(current - base, isObject, |words|, table - base));
      FinishedBlock(data0, c0, data1, data, base, current, isObject, words);
    }

    method ParseArray() returns (ok: bool)
      requires Valid() && json <= |src.t| && Within(-4) && current % 4 == 0
      modifies this
      ensures Wrote(old(data), old(current), old(json), 20)
      ensures var r := src.ReadArray(old(json), old(nestingLevel));
              if ok then r.Read? && json == r.next && current % 4 == 0 && nestingLevel == old(nestingLevel)
                         && Doc(data[old(current)..current]) == Some(r.value)
              else Refused(r)
      decreases |src.t| + 1 - json, 3
    {
      hide Doc, ArrayDoc, Split, Kept, SkipSpace, NextToken, Source.ReadArray;
      KeptItself(data, current);
      nestingLevel := nestingLevel + 1;
      if nestingLevel > NESTING_LIMIT {
        src.TooDeep(json, nestingLevel - 1);
        lastError := DeepNesting;
        return false;
      }
      ghost var data0, c0, j0 := data, current, json;
      var base := ReserveSpace(HEADER);
      ghost var d1, c1 := data, current;
      var words;
      ghost var vs;
      ok, words, vs := ParseArrayContent(base);
      KeptLess(d1, c1, data, base);
      KeptTrans(data0, c0, d1, c0, data);
      if !ok {
        return;
      }
      ghost var d, d2 := data[base + HEADER..current], data;
      Finish(base, false, words);
      KeptTrans(data0, c0, d2, c0, data);
      FinishedArray(data[base..current], d, words, vs);
      nestingLevel := nestingLevel - 1;
    }

    /** Everything up to the closing bracket. */
    method ParseArrayContent(base: nat) returns (ok: bool, words: seq<word>, ghost vs: seq<Json>)
      requires Valid() && json <= |src.t| && Within(8) && 0 < nestingLevel <= NESTING_LIMIT
      requires base % 4 == 0 && current % 4 == 0 && FILE_HEADER <= base && base + HEADER == current
      modifies this
      ensures Wrote(old(data), old(current), old(json), 8)
      ensures ok ==> current + 4 * |words| <= old(current) + 12 * (json - old(json))
      ensures var r := src.ReadArray(old(json), old(nestingLevel) - 1);
              if ok then r == Read(Arr(vs), json) && current % 4 == 0 && nestingLevel == old(nestingLevel)
                         && ArrayDoc(data[old(current)..current], words) == Some(Arr(vs))
              else Refused(r)
      decreases |src.t| + 1 - json, 2
    {
      hide ArrayDoc, Kept, SkipSpace, NextToken, Source.ReadItems;
      KeptItself(data, current);
      EmptyArrayDoc();
      assert data[current..current] == [];
      words, vs := [], [];
      var more := EatSpace();
      if !more {
        lastError := UnterminatedArray;
        return false, words, vs;
      }
      if src.t[json] == END_ARRAY {
        var token := NextTok();
        ok := true;
      } else {
        ok, words, vs := ParseItems(base);
      }
    }

    method ParseObject() returns (ok: bool)
      requires Valid() && json <= |src.t| && Within(-4) && current % 4 == 0
      modifies this
      ensures Wrote(old(data), old(current), old(json), 20)
      ensures var r := src.ReadObject(old(json), old(nestingLevel));
              if ok then r.Read? && json == r.next && current % 4 == 0 && nestingLevel == old(nestingLevel)
                         && Doc(data[old(current)..current]) == Some(r.value)
              else Refused(r)
      decreases |src.t| + 1 - json, 4
    {
      hide Doc, ObjectDoc, Split, Kept, NextToken, Source.ReadMembers, Source.ReadObject;
      KeptItself(data, current);
      src.ObjectStep(json, nestingLevel);
      nestingLevel := nestingLevel + 1;
      if nestingLevel > NESTING_LIMIT {
        lastError := DeepNesting;
        return false;
      }
      ghost var data0, c0, j0 := data, current, json;
      var base := ReserveSpace(HEADER);
      ghost var d1, c1 := data, current;
      var offsets;
      ghost var ms;
      ok, offsets, ms := ParseMembers(base);
      KeptLess(d1, c1, data, base);
      KeptTrans(data0, c0, d1, c0, data);
      if !ok {
        return;
      }
      ghost var d, d2 := data[base + HEADER..current], data;
      Finish(base, true, offsets);
      KeptTrans(data0, c0, d2, c0, data);
      FinishedObject(data[base..current], d, offsets, ms);
      nestingLevel := nestingLevel - 1;
    }

    /** The members of the object that starts at `base`, up to its closing brace. */
    method ParseMembers(base: nat) returns (ok: bool, offsets: seq<word>, ghost ms: seq<Member>)
      requires Valid() && json <= |src.t| && Within(8)
      requires base % 4 == 0 && current % 4 == 0 && FILE_HEADER <= base && base + HEADER == current
      modifies this
      ensures Wrote(old(data), old(current), old(json), 8)
      ensures ok ==> current + 4 * |offsets| <= old(current) + 12 * (json - old(json))
      ensures var r := src.ReadMembers(NextToken(src.t, old(json)), old(nestingLevel), []);
              if ok then r == Read(Obj(ms), json) && current % 4 == 0 && nestingLevel == old(nestingLevel)
                         && ObjectDoc(data[old(current)..current], offsets) == Some(Obj(ms))
              else Refused(r)
      decreases |src.t| + 1 - json, 3
    {
      hide ObjectDoc, IsEntry, Kept, NextToken, Source.ReadMember, Source.ReadMembers, Put;
      KeptItself(data, current);
      ghost var data0, c0, j0 := data, current, json;
      var parsedObject := new ParsedObject();
      offsets, ms := [], [];
      EmptyObjectDoc();
      assert data[c0..current] == [];
      var token := NextTok();
      ghost var r := src.ReadMembers(Token(token, json), nestingLevel, []);
      while token == QUOTE
        invariant Valid() && json <= |src.t| && j0 <= json && nestingLevel == old(nestingLevel)
        invariant c0 <= current && current % 4 == 0 && Kept(data0, c0, data)
        invariant token == QUOTE ==> j0 < json
        invariant current + 4 * |parsedObject.offsets| <= c0 + 12 * (json - j0) - if token == QUOTE then 12 else 0
        invariant ObjectDoc(data[c0..current], parsedObject.offsets) == Some(Obj(ms))
        invariant src.ReadMembers(Token(token, json), nestingLevel, ms) == r
        decreases |src.t| - json
      {
        ghost var data1, c1, j1 := data, current, json;
        src.MembersStep(Token(token, json), nestingLevel, ms);
        ok, ms := ParseEntry(base, parsedObject, ms);
        KeptTrans(data0, c0, data1, c1, data);
        if !ok {
          return;
        }
        token := NextTok();
        if token != VALUE_SEPARATOR {
          break;
        }
        token := NextTok();
        if token == END_OBJECT {
          lastError := MissingObject;
          return false, offsets, ms;
        }
      }
      if token != QUOTE {
        src.MembersEnd(Token(token, json), nestingLevel, ms);
      }
      offsets := parsedObject.offsets;
      if token != END_OBJECT {
        lastError := UnterminatedObject;
        return false, offsets, ms;
      }
      ok := true;
    }

    /** A member, and its entry in the table. */
    method ParseEntry(base: nat, parsedObject: ParsedObject, ghost ms: seq<Member>) returns (ok: bool,
        ghost ms': seq<Member>)
      requires Valid() && json <= |src.t| && Within(-4)
      requires base % 4 == 0 && current % 4 == 0 && FILE_HEADER <= base && base + HEADER <= current
      requires ObjectDoc(data[base + HEADER..current], parsedObject.offsets) == Some(Obj(ms))
      modifies this, parsedObject
      ensures Wrote(old(data), old(current), old(json), if ok then 0 else 8)
      ensures |parsedObject.offsets| <= |old(parsedObject.offsets)| + 1
      ensures var r := src.ReadMember(old(json), old(nestingLevel));
              if ok then r.Read? && json == r.next && current % 4 == 0 && nestingLevel == old(nestingLevel)
                         && ms' == Put(ms, r.value.0, r.value.1)
                         && ObjectDoc(data[base + HEADER..current], parsedObject.offsets) == Some(Obj(ms'))
              else Refused(r)
      decreases |src.t| + 1 - json, 2
    {
      hide ObjectDoc, IsEntry, Kept, Source.ReadMember, Put;
      ghost var data0, c0 := data, current;
      ghost var d := data[base + HEADER..current];
      ghost var r := src.ReadMember(json, nestingLevel);
      var off := current - base;
      ms' := ms;
      ok := ParseMember(base);
      if ok {
        Appended(data0, c0, data, base + HEADER, current);
        ms' := InsertMember(parsedObject, base, off, d, data[c0..current], ms, r.value);
      }
    }

    /** `parsedObject.insert(off)` for the entry that has just been written. */
    method InsertMember(parsedObject: ParsedObject, base: nat, off: nat, ghost d: Bytes, ghost x: Bytes,
                        ghost ms: seq<Member>, ghost m: Member) returns (ghost ms': seq<Member>)
      requires base + HEADER <= current <= |data| < 0x8000_0000 && data[base + HEADER..current] == d + x
      requires ObjectDoc(d, parsedObject.offsets) == Some(Obj(ms))
      requires IsEntry(|d|, x, m) && off == HEADER + |d|
      modifies parsedObject
      ensures ms' == Put(ms, m.0, m.1) && ObjectDoc(d + x, parsedObject.offsets) == Some(Obj(ms'))
      ensures |parsedObject.offsets| <= |old(parsedObject.offsets)| + 1
    {
      hide EntryAt, EntryStorage, ObjectDoc, Put;
      ghost var t := parsedObject.offsets;
      ObjectGrows(d, x, t);
      ObjectDocIs(d, t, ms);
      ObjectDocIs(d + x, t, ms);
      assert HoldsEntry(d + x, |d| + HEADER, m, |x|);
      parsedObject.Insert(data[base + HEADER..current], off, ms);
      ms' := Put(ms, m.0, m.1);
      PutLength(ms, m);
      ObjectDocIs(d + x, parsedObject.offsets, ms');
    }

    /** A member of the object that starts at `base`, behind the opening quote of its key. */
    method ParseMember(base: nat) returns (ok: bool)
      requires Valid() && json <= |src.t| && Within(-4)
      requires base % 4 == 0 && current % 4 == 0 && FILE_HEADER <= base && base + HEADER <= current
      modifies this
      ensures Wrote(old(data), old(current), old(json), if ok then 0 else 8)
      ensures var r := src.ReadMember(old(json), old(nestingLevel));
              if ok then r.Read? && json == r.next && current % 4 == 0 && nestingLevel == old(nestingLevel)
                         && IsEntry(old(current) - base - HEADER, data[old(current)..current], r.value)
              else Refused(r)
      decreases |src.t| + 1 - json, 1
    {
      hide IsPayload, IsEntry, IsStringStorage, ReadString, Kept, NextToken, Source.ReadValue, LE4, Write;
      ghost var data0, c0, j0 := data, current, json;
      var entryOffset := ReserveSpace(4);
      ghost var data1, c1 := data, current;
      ok := ParseString();
      KeptTrans(data0, c0, data1, c1, data);
      if !ok {
        return;
      }
      ghost var key, data2, c2 := ReadString(src.t, j0, []).value, data, current;
      var token := NextTok();
      if token != NAME_SEPARATOR {
        lastError := MissingNameSeparator;
        return false;
      }
      ghost var j1 := json;
      var w;
      ok, w := ParseValue(base);
      KeptTrans(data0, c0, data2, c2, data);
      if !ok {
        return;
      }
      ghost var v := src.ReadValue(j1, nestingLevel).value;
      FinishEntry(base, entryOffset, w, data0, data2, c2, key, v);
    }

    /** Put the value word in front of key and payload. */
    method FinishEntry(base: nat, at: nat, w: word, ghost data0: Bytes, ghost data2: Bytes, ghost c2: nat,
                       ghost key: Key, ghost v: Json)
      requires Valid() && FILE_HEADER <= base && base + HEADER <= at && base % 4 == 0 && at % 4 == 0
      requires at + 4 <= c2 <= current && c2 <= |data2| && Kept(data2, c2, data)
          && IsStringStorage(data2[at + 4..c2], key)
      requires IsPayload(c2 - base - HEADER, data[c2..current], w, v) && Kept(data0, at, data)
      modifies this`data
      ensures Valid() && Kept(data0, at, data)
      ensures IsEntry(at - base - HEADER, data[at..current], (key, v))
    {
      hide IsPayload, IsEntry, IsStringStorage, Kept, LE4, Write;
      ghost var data3 := data;
      data := Write(data, at, LE4(w));
      EntryWritten(data2, data3, data, at, c2, current, w);
      EntryPieces(at - base - HEADER, w, data2[at + 4..c2], key, data3[c2..current], v);
      KeptTrans(data0, at, data3, at, data);
    }

    /** The items of the array that starts at `base`, up to its closing bracket. */
    method ParseItems(base: nat) returns (ok: bool, words: seq<word>, ghost vs: seq<Json>)
      requires Valid() && json <= |src.t| && Within(8)
      requires base % 4 == 0 && current % 4 == 0 && FILE_HEADER <= base && base + HEADER == current
      modifies this
      ensures Wrote(old(data), old(current), old(json), 8)
      ensures ok ==> current + 4 * |words| <= old(current) + 12 * (json - old(json))
      ensures var r := src.ReadItems(old(json), old(nestingLevel), []);
              if ok then r == Read(Arr(vs), json) && current % 4 == 0 && nestingLevel == old(nestingLevel)
                         && ArrayDoc(data[old(current)..current], words) == Some(Arr(vs))
              else Refused(r)
      decreases |src.t| + 1 - json, 1
    {
      hide ArrayDoc, IsPayload, Kept, NextToken, SkipSpace, Source.ReadValue;
      KeptItself(data, current);
      ghost var data0, c0, j0 := data, current, json;
      words, vs := [], [];
      EmptyArrayDoc();
      assert data[c0..current] == [];
      while true
        invariant Valid() && json <= |src.t| && j0 <= json && nestingLevel == old(nestingLevel)
        invariant c0 <= current && current % 4 == 0 && Kept(data0, c0, data)
        invariant current + 4 * |words| <= c0 + 12 * (json - j0)
        invariant ArrayDoc(data[c0..current], words) == Some(Arr(vs))
        invariant src.ReadItems(json, nestingLevel, vs) == src.ReadItems(j0, nestingLevel, [])
        decreases |src.t| - json
      {
        ghost var data1, c1, j1 := data, current, json;
        var w;
        ok, w := ParseValue(base);
        KeptTrans(data0, c0, data1, c1, data);
        if !ok {
          return;
        }
        ghost var v := src.ReadValue(j1, nestingLevel).value;
        Appended(data1, c1, data, c0, current);
        ArrayAppended(data1[c0..c1], data[c1..current], words, vs, w, v);
        words, vs := words + [w], vs + [v];
        var token := NextTok();
        if token == END_ARRAY {
          return;
        }
        if token != VALUE_SEPARATOR {
          var more := EatSpace();
          lastError := if !more then UnterminatedArray else MissingValueSeparator;
          return false, words, vs;
        }
      }
    }

    // -------------------------------------------------------------------
    // Documents
    // -------------------------------------------------------------------

    /** Allocate, and write the file header. */
    method Start()
      requires |src.t| <= MAX_TEXT && json == 0
      modifies this`data, this`current
      ensures Valid() && current == FILE_HEADER && data[..FILE_HEADER] == FileHeader()
    {
      hide FileHeader;
      data := Junk(if |src.t| > 256 then |src.t| else 256);
      data := Write(data, 0, FileHeader());
      current := FILE_HEADER;
    }

    /** The outermost array or object, and space behind it. */
    method ParseRoot() returns (ok: bool)
      requires Valid() && json == 0 && current == FILE_HEADER && nestingLevel == 0
      modifies this
      ensures Valid() && Kept(old(data), FILE_HEADER, data) && FILE_HEADER <= current <= 12 * |src.t| + 40
      ensures var r := src.ReadDocument();
              if ok then r.Read? && Doc(data[FILE_HEADER..current]) == Some(r.value) else Refused(r)
    {
      hide Kept, Doc, NextToken, SkipSpace, Source.ReadArray, Source.ReadObject;
      KeptItself(data, current);
      EatBOM();
      var token := NextTok();
      ok := false;
      if token == BEGIN_ARRAY {
        ok := ParseArray();
      } else if token == BEGIN_OBJECT {
        ok := ParseObject();
      } else {
        lastError := IllegalValue;
        return;
      }
      if ok {
        var more := EatSpace();
        if json < |src.t| {
          lastError := GarbageAtEnd;
          ok := false;
        }
      }
    }

    /** `Parser::parse`: the new document, or null with the error in `lastError` and its offset in `json`. */
    method Parse() returns (d: Data?)
      requires |src.t| <= MAX_TEXT && json == 0 && nestingLevel == 0
      modifies this
      ensures var r := src.ReadDocument();
              if d != null then r.Read? && fresh(d) && d.RootDoc() == Some(r.value)
              else r == Failed(lastError, json) || (lastError == DocumentTooLarge && 12 * |src.t| + 40 >= MAX_SIZE)
      ensures d != null ==>
                && |d.body| == Size(d.body) <= 12 * |src.t| + 32 && d.ref == 0 && d.compactionCounter == 0
                && current <= |data| && data[..current] == FileHeader() + d.body
    {
      hide Doc, FileHeader, Source.ReadDocument, Kept;
      Start();
      ghost var started := data;
      var ok := ParseRoot();
      if !ok {
        return null;
      }
      d := new Data.Raw(data[FILE_HEADER..current]);
      KeptSlice(started, FILE_HEADER, data, 0, FILE_HEADER);
      assert data[..current] == data[0..FILE_HEADER] + data[FILE_HEADER..current];
      DocSize(d.body);
      assert d.body[..|d.body|] == d.body;
    }
  }

  /** `JsonDocument::fromJson` with an error to be filled in. */
  method FromJson(src: Source) returns (d: Data?, error: ParseError, offset: nat)
    requires |src.t| <= MAX_TEXT
    ensures var r := src.ReadDocument();
            if d != null then r.Read? && fresh(d) && d.RootDoc() == Some(r.value) && error == NoError && offset == 0
            else r == Failed(error, offset) || (error == DocumentTooLarge && 12 * |src.t| + 40 >= MAX_SIZE)
    ensures d != null ==>
              |d.body| == Size(d.body) <= 12 * |src.t| + 32 && d.ref == 0 && d.compactionCounter == 0
    ensures d != null ==> ValidRoot(d.body)
  {
    hide Source.ReadDocument, Doc, ValidRoot;
    var parser := new Parser(src);
    d := parser.Parse();
    if d != null {
      assert d.body[..|d.body|] == d.body;
      SavedIsAccepted(d.body);
      error, offset := NoError, 0;
    } else {
      error, offset := parser.lastError, parser.json;
    }
  }

  lemma PlainCharacter(t: Bytes, i: nat, j: nat)
    requires i <= j < |t| && t[j] != QUOTE && t[j] != BACKSLASH
    ensures ReadString(t, j, t[i..j]) == ReadString(t, j + 1, t[i..j + 1])
  {
    assert t[i..j] + [t[j]] == t[i..j + 1];
  }

  lemma StringEnds(t: Bytes, i: nat, s: Bytes)
    requires i <= |t|
    ensures i == |t| ==> ReadString(t, i, s) == Failed(UnterminatedString, i + 1)
    ensures i < |t| && t[i] == QUOTE ==> ReadString(t, i, s) == Read(s, i + 1)
  {}

  lemma OutIs(a: Bytes, d: Bytes, m: nat, head: Bytes, s: Bytes, n: nat)
    requires m <= |d| && d[..m] == head + s && n + 4 == |head| && Kept(a, n, head)
    ensures Kept(a, n, d) && d[n + 4..m] == s
  {
    assert d[..m][..n] == head[..n];
    assert d[..m][n + 4..] == s;
  }

  lemma KeptCut(a: Bytes, c: nat, d: Bytes, m: nat)
    requires Kept(a, c, d) && c <= m <= |d|
    ensures Kept(a, c, d[..m])
  {
    assert d[..m][..c] == d[..c];
  }

  /** The value word goes in front of the key that was there before it, and of the payload behind that. */
  lemma EntryWritten(a: Bytes, b: Bytes, r: Bytes, at: nat, c: nat, end: nat, w: word)
    requires at + 4 <= c <= end <= |b| && Kept(a, c, b) && r == Write(b, at, LE4(w))
    ensures r[at..end] == LE4(w) + a[at + 4..c] + b[c..end]
    ensures Kept(b, at, r)
  {
    hide LE4, U32, Write;
    KeptSlice(a, c, b, at + 4, c);
    SubSlice(b, r, at + 4, |b|, at + 4, c);
    SubSlice(b, r, at + 4, |b|, c, end);
    assert r[at..end] == r[at..at + 4] + r[at + 4..c] + r[c..end];
  }

  lemma PutLength(ms: seq<Member>, m: Member)
    ensures |Put(ms, m.0, m.1)| <= |ms| + 1
  {}

  lemma DocSize(b: Bytes)
    requires Doc(b).Some?
    ensures |b| >= HEADER && Size(b) == |b|
  {
    hide Contents;
    BlockSizeAligned(b, IsObject(b));
  }

  lemma ContainerPayload(off: nat, b: Bytes, isObject: bool)
    requires Doc(b).Some? && (isObject <==> Doc(b).value.Obj?) && HEADER <= off < TWO_TO_THE_27 && off % 4 == 0
    ensures IsPayload(off - HEADER, b, PackWord(0, if isObject then T_OBJECT else T_ARRAY, false, off), Doc(b).value)
  {
    hide Contents, Doc, IsPayload, PackWord, TypeField, ValueField, IntField;
    PackedFields(0, if isObject then T_OBJECT else T_ARRAY, false, off);
    RootContents(b, isObject);
    BlockPayload(off - HEADER, b, PackWord(0, if isObject then T_OBJECT else T_ARRAY, false, off));
  }

  lemma RootContents(b: Bytes, isObject: bool)
    requires Doc(b).Some? && (isObject <==> Doc(b).value.Obj?)
    ensures Contents(b, isObject) == Doc(b)
  {
    hide Contents;
  }

  lemma IntPayload(n: nat, x: int)
    requires -TWO_TO_THE_25 < x < TWO_TO_THE_25
    ensures IsPayload(n, [], PackWord(0, T_DOUBLE, true, x), Num(Int(x)))
  {
    var w := PackWord(0, T_DOUBLE, true, x);
    PackedFields(0, T_DOUBLE, true, x);
    PackedSigned(0, T_DOUBLE, true, x);
    WordPayload(n, w, Num(Int(x)));
  }

  lemma Align4Unique(a: nat, c: nat, e: nat, n: nat)
    requires a % 4 == 0 && c == a + 4 + n && e == c + (4 - c) % 4
    ensures e == a + 4 + Align4(n)
  {}

  lemma StringThere(d: Bytes, at: nat, s: Bytes, end: nat)
    requires |s| < 0x8000_0000 && end == at + 4 + Align4(|s|) <= |d|
    requires d[at..at + 4] == LE4(|s|) && d[at + 4..at + 4 + |s|] == s
    ensures IsStringStorage(d[at..end], s)
  {
    hide U32, LE4;
    var x := d[at..end];
    SliceOfSlice(d, at, end, 0, 4);
    SliceOfSlice(d, at, end, 4, 4 + |s|);
    U32OfLE4(|s|);
    U32Moved(x, 0, LE4(|s|), 0);
  }

  lemma StringWritten(d: Bytes, at: nat, s: Bytes, end: nat)
    requires |s| < 0x8000_0000 && end == at + 4 + Align4(|s|) <= |d|
    ensures IsStringStorage(Write(d, at, LE4(|s|) + s)[at..end], s)
  {
    hide U32, LE4;
    var x, r := LE4(|s|) + s, Write(d, at, LE4(|s|) + s);
    SliceOfSlice(r, at, at + |x|, 0, 4);
    SliceOfSlice(r, at, at + |x|, 4, 4 + |s|);
    StringThere(r, at, s, end);
  }

  /** The block from `base` to `end` consists of the header just written, data and table. */
  lemma FinishedSplit(s: Bytes, base: nat, end: nat, isObject: bool, d: Bytes, t: seq<word>)
    requires |d| % 4 == 0 && end == base + HEADER + |d| + 4 * |t| <= |s| < 0x8000_0000
    requires s[base..base + HEADER] ==
             Header(end - base, isObject, |t|, if t == [] then 0 else HEADER + |d|)
    requires s[base + HEADER..base + HEADER + |d|] == d
    requires t != [] ==> s[base + HEADER + |d|..end] == TableBytes(t)
    ensures Split(s[base..end]) == Some(Parts(isObject, if t == [] then [] else d, t))
  {
    hide U32, Words, TableBytes, Header, Split;
    var b, tab := s[base..end], if t == [] then 0 else HEADER + |d|;
    SliceOfSlice(s, base, end, 0, HEADER);
    SliceOfSlice(s, base, end, HEADER, HEADER + |d|);
    SliceOfSlice(s, base, end, HEADER + |d|, end - base);
    assert b == Header(|b|, isObject, |t|, tab) + b[HEADER..];
    HeaderFields(|b|, isObject, |t|, tab, b[HEADER..]);
    if t == [] {
      EmptySplit(b, isObject, 0);
    } else {
      assert b[HEADER + |d|..] == b[HEADER + |d|..end - base];
      AssembledSplit(b, isObject, d, t);
    }
  }

  lemma FinishedBlock(a: Bytes, c: nat, b: Bytes, r: Bytes, base: nat, end: nat, isObject: bool, t: seq<word>)
    requires Kept(a, c, b) && base % 4 == 0 && c % 4 == 0 && base + HEADER <= c && end == c + 4 * |t|
    requires c <= |a| && end <= |b| < 0x8000_0000
    requires r == Write(b, base, Header(end - base, isObject, |t|, if t == [] then 0 else c - base))
    requires t != [] ==> b[c..end] == TableBytes(t)
    ensures Kept(a, base, r)
    ensures Split(r[base..end]) == Some(Parts(isObject, if t == [] then [] else a[base + HEADER..c], t))
  {
    hide U32, Words, TableBytes, Split, Header, Write;
    KeptSlice(a, c, b, base + HEADER, c);
    KeptLess(a, c, b, base);
    var h := Header(end - base, isObject, |t|, if t == [] then 0 else c - base);
    assert r[base + |h|..] == b[base + |h|..];
    SubSlice(b, r, base + HEADER, |r|, base + HEADER, c);
    SubSlice(b, r, base + HEADER, |r|, c, end);
    FinishedSplit(r, base, end, isObject, a[base + HEADER..c], t);
  }

  lemma FinishedArray(b: Bytes, d: Bytes, t: seq<word>, vs: seq<Json>)
    requires Split(b) == Some(Parts(false, if t == [] then [] else d, t))
    requires ArrayDoc(d, t) == Some(Arr(vs))
    ensures Doc(b) == Some(Arr(vs))
  {
    hide ValueAt, U32, Words;
    if t == [] {
      EmptyArrayDoc();
      assert vs == [];
    }
  }

  lemma FinishedObject(b: Bytes, d: Bytes, t: seq<word>, ms: seq<Member>)
    requires Split(b) == Some(Parts(true, if t == [] then [] else d, t))
    requires ObjectDoc(d, t) == Some(Obj(ms))
    ensures Doc(b) == Some(Obj(ms))
  {
    hide EntryAt, U32, Words;
    if t == [] {
      EmptyObjectDoc();
      assert ms == [];
    }
  }
}
