/**
  How printed text is laid out, seen by somebody who reads it byte by byte and knows
  nothing of documents: lines, indentation and space.
 */
module Lines {
  import opened Bytes
  import opened Numbers
  import opened Json
  import opened Decimals
  import opened Reader
  import opened Printer

  /** Where in a text one is; `depth` counts the brackets and braces that are open. */
  datatype Mode =
    | Break(depth: nat)
    | Indent(depth: nat, n: nat)
    | Inside(depth: nat)
    | Colon(depth: nat)
    | Spaced(depth: nat)
    | InString(depth: nat)
    | Escaping(depth: nat)

  type Step = (Mode, byte) -> Option<Mode>

  function Run(step: Step, x: Bytes, m: Mode): Option<Mode> {
    if x == [] then Some(m)
    else
      match step(m, x[0])
      case None => None
      case Some(next) => Run(step, x[1..], next)
  }

  lemma {:induction false} RunConcat(step: Step, a: Bytes, b: Bytes, m: Mode)
    ensures Run(step, a + b, m) == if Run(step, a, m).Some? then Run(step, b, Run(step, a, m).value) else None
    decreases |a|
  {
    if a == [] {
      assert a + b == b;
    } else {
      assert (a + b)[1..] == a[1..] + b;
      if step(m, a[0]).Some? {
        RunConcat(step, a[1..], b, step(m, a[0]).value);
      }
    }
  }

  lemma RunOne(step: Step, c: byte, m: Mode)
    ensures Run(step, [c], m) == step(m, c)
  {
    assert [c][1..] == [];
  }

  // ---------------------------------------------------------------------
  // Indented text
  // ---------------------------------------------------------------------

  /** A value begins. */
  function Begin(depth: nat, c: byte): Option<Mode> {
    if c == 0x22 then Some(InString(depth))
    else if c == 0x5B || c == 0x7B then Some(Break(depth + 1))
    else if c == 0x2C || c == 0x3A || c == 0x5D || c == 0x7D || c <= 0x20 then None
    else Some(Inside(depth))
  }

  /**
    A line ends behind every opening bracket and every comma. It is indented by four blanks
    for every bracket that is open, a closing bracket by as many as the line of its opening
    one. Nothing else but a closing bracket comes in its line in front of a comma, and the
    only other blank is the one behind a colon.
   */
  function Indented(m: Mode, c: byte): Option<Mode> {
    match m
    case Break(k) => if c == 0x0A then Some(Indent(k, 0)) else None
    case Indent(k, n) =>
      if c == 0x20 then Some(Indent(k, n + 1))
      else if c == 0x5D || c == 0x7D then if k > 0 && n == 4 * (k - 1) then Some(Inside(k - 1)) else None
      else if n == 4 * k then Begin(k, c)
      else None
    case Inside(k) =>
      if c == 0x2C then Some(Break(k))
      else if c == 0x0A then Some(Indent(k, 0))
      else if c == 0x3A then Some(Colon(k))
      else if c == 0x22 || c == 0x5B || c == 0x7B || c == 0x5D || c == 0x7D || c <= 0x20 then None
      else Some(Inside(k))
    case Colon(k) => if c == 0x20 then Some(Spaced(k)) else None
    case Spaced(k) => Begin(k, c)
    case InString(k) =>
      if c == 0x22 then Some(Inside(k)) else if c == 0x5C then Some(Escaping(k))
      else if c < 0x20 then None else Some(InString(k))
    case Escaping(k) => if c < 0x20 then None else Some(InString(k))
  }

  /** Compact text has no space outside of strings. */
  function Compacted(m: Mode, c: byte): Option<Mode> {
    match m
    case InString(k) =>
      if c == 0x22 then Some(Inside(k)) else if c == 0x5C then Some(Escaping(k))
      else if c < 0x20 then None else Some(InString(k))
    case Escaping(k) => if c < 0x20 then None else Some(InString(k))
    case _ =>
      if c <= 0x20 then None
      else if c == 0x22 then Some(InString(0))
      else Some(Inside(0))
  }

  /** Letters, digits, signs and points. */
  predicate IsWord(x: Bytes) {
    x != [] && forall k :: 0 <= k < |x| ==> IsWordCharacter(x[k])
  }

  predicate IsWordCharacter(c: byte) {
    c == 0x2B || c == 0x2D || c == 0x2E || 0x30 <= c <= 0x39 || 0x41 <= c <= 0x5A || 0x61 <= c <= 0x7A
  }

  /** `sprintf` writes numbers with no other characters. */
  ghost predicate WritesWords(format: Format) {
    forall d :: IsWord(format(d))
  }

  /** Where a value may begin: behind the indentation of its level, or behind a colon and a blank. */
  predicate Ready(m: Mode, k: nat) {
    m == Indent(k, 4 * k) || m == Spaced(k)
  }

  lemma {:induction false} WordGoesOn(x: Bytes, k: nat)
    requires forall i :: 0 <= i < |x| ==> IsWordCharacter(x[i])
    ensures Run(Indented, x, Inside(k)) == Some(Inside(k))
    decreases |x|
  {
    if x != [] {
      WordGoesOn(x[1..], k);
    }
  }

  lemma WordIsIndented(x: Bytes, m: Mode, k: nat)
    requires IsWord(x) && Ready(m, k)
    ensures Run(Indented, x, m) == Some(Inside(k))
  {
    WordGoesOn(x[1..], k);
  }

  lemma {:induction false} DigitsAreWord(n: nat)
    ensures IsWord(Digits(n))
  {}

  lemma NumberIsWord(n: Number, format: Format)
    requires WritesWords(format)
    ensures IsWord(NumberText(n, format))
  {
    hide Digits, Bits, Finite;
    match n
    case Int(i) => DigitsAreWord(if i < 0 then -i else i);
    case Raw(d) => assert IsWord(format(d));
  }

  predicate InText(step: Step, u: Bytes, k: nat) {
    Run(step, u, InString(k)) == Some(InString(k))
  }

  lemma {:induction false} WordInString(step: Step, x: Bytes, k: nat)
    requires step == Indented || step == Compacted
    requires forall i :: 0 <= i < |x| ==> IsWordCharacter(x[i])
    ensures InText(step, x, k)
    decreases |x|
  {
    if x != [] {
      WordInString(step, x[1..], k);
    }
  }

  /** An escape and what follows it. */
  lemma EscapeInString(step: Step, c: byte, x: Bytes, k: nat)
    requires step == Indented || step == Compacted
    requires c >= 0x20 && forall i :: 0 <= i < |x| ==> IsWordCharacter(x[i])
    ensures InText(step, [0x5C] + ([c] + x), k)
  {
    hide Run;
    RunConcat(step, [0x5C], [c] + x, InString(k));
    RunConcat(step, [c], x, Escaping(k));
    RunOne(step, 0x5C, InString(k));
    RunOne(step, c, Escaping(k));
    WordInString(step, x, k);
  }

  lemma EscapedByteInString(step: Step, u: byte, k: nat)
    requires step == Indented || step == Compacted
    ensures InText(step, EscapedByte(u), k)
  {
    hide Run, InText;
    var x := EscapedByte(u);
    if |x| == 1 {
      PlainInString(step, u, k);
    } else {
      HexIsPlain(u / 16);
      HexIsPlain(u % 16);
      assert x == [0x5C] + ([x[1]] + x[2..]);
      EscapeInString(step, x[1], x[2..], k);
    }
  }

  lemma PlainInString(step: Step, u: byte, k: nat)
    requires (step == Indented || step == Compacted) && u >= 0x20 && u != 0x22 && u != 0x5C
    ensures InText(step, [u], k)
  {
    RunOne(step, u, InString(k));
  }

  lemma HexIsPlain(u: nat)
    requires u < 16
    ensures IsWordCharacter(HexDig(u))
  {}

  lemma {:induction false} EscapedInString(step: Step, s: Bytes, k: nat)
    requires step == Indented || step == Compacted
    requires forall u :: InText(step, EscapedByte(u), k)
    ensures InText(step, Escaped(s), k)
    decreases |s|
  {
    hide EscapedByte;
    if s != [] {
      assert InText(step, EscapedByte(s[0]), k);
      EscapedInString(step, s[1..], k);
      RunConcat(step, EscapedByte(s[0]), Escaped(s[1..]), InString(k));
    }
  }

  lemma StringIsIndented(s: Bytes, m: Mode, k: nat)
    requires Ready(m, k)
    ensures Run(Indented, [QUOTE] + Escaped(s) + [QUOTE], m) == Some(Inside(k))
  {
    forall u
      ensures InText(Indented, EscapedByte(u), k)
    {
      EscapedByteInString(Indented, u, k);
    }
    EscapedInString(Indented, s, k);
    RunConcat(Indented, [QUOTE] + Escaped(s), [QUOTE], m);
    RunConcat(Indented, [QUOTE], Escaped(s), m);
    RunOne(Indented, QUOTE, m);
    RunOne(Indented, QUOTE, InString(k));
  }

  lemma {:induction false} SpacesIndent(n: nat, k: nat, before: nat)
    ensures Run(Indented, Spaces(n), Indent(k, before)) == Some(Indent(k, before + n))
    decreases n
  {
    if n > 0 {
      assert Spaces(n)[1..] == Spaces(n - 1);
      SpacesIndent(n - 1, k, before + 1);
    }
  }

  /** What surrounds the items of an array, or the members of an object. */
  lemma BracketsIndented(open: byte, x: Bytes, close: byte, m: Mode, k: nat)
    requires Ready(m, k) && ((open == 0x5B && close == 0x5D) || (open == 0x7B && close == 0x7D))
    requires Run(Indented, x, Indent(k + 1, 0)) == Some(Indent(k + 1, 0))
    ensures Run(Indented, Open(open, false) + x + Spaces(4 * k) + [close], m) == Some(Inside(k))
  {
    hide Run, Spaces;
    assert Open(open, false) == [open] + [0x0A];
    RunConcat(Indented, Open(open, false) + x + Spaces(4 * k), [close], m);
    RunConcat(Indented, Open(open, false) + x, Spaces(4 * k), m);
    RunConcat(Indented, Open(open, false), x, m);
    RunConcat(Indented, [open], [0x0A], m);
    RunOne(Indented, open, m);
    RunOne(Indented, 0x0A, Break(k + 1));
    SpacesIndent(4 * k, k + 1, 0);
    RunOne(Indented, close, Indent(k + 1, 4 * k));
  }

  /** A line with an item or member, and what follows it. */
  lemma RowIndented(x: Bytes, rest: Bytes, last: bool, k: nat)
    requires Run(Indented, x, Indent(k, 4 * k)) == Some(Inside(k))
    requires !last ==> Run(Indented, rest, Indent(k, 0)) == Some(Indent(k, 0))
    ensures Run(Indented, Spaces(4 * k) + x + (if last then Last(false) else Separator(false) + rest), Indent(k, 0)) ==
            Some(Indent(k, 0))
  {
    hide Run, Spaces;
    var y := if last then Last(false) else Separator(false) + rest;
    RunConcat(Indented, Spaces(4 * k) + x, y, Indent(k, 0));
    RunConcat(Indented, Spaces(4 * k), x, Indent(k, 0));
    SpacesIndent(4 * k, k, 0);
    if last {
      RunOne(Indented, 0x0A, Inside(k));
    } else {
      assert Separator(false) == [0x2C] + [0x0A];
      RunConcat(Indented, Separator(false), rest, Inside(k));
      RunConcat(Indented, [0x2C], [0x0A], Inside(k));
      RunOne(Indented, 0x2C, Inside(k));
      RunOne(Indented, 0x0A, Break(k));
    }
  }

  lemma {:induction false} ValueIsIndented(v: Json, m: Mode, k: nat, format: Format)
    requires WritesWords(format) && Ready(m, k)
    ensures Run(Indented, ValueText(v, k, false, format), m) == Some(Inside(k))
    decreases v, 1
  {
    hide Run, NumberText, Escaped, ItemsText, MembersText, Spaces, Indented, IsWordCharacter, WritesWords;
    match v
    case Null => WordIsIndented(NULL_TEXT, m, k) by { NamesAreWords(); }
    case Bool(b) => WordIsIndented(if b then TRUE_TEXT else FALSE_TEXT, m, k) by { NamesAreWords(); }
    case Num(n) =>
      NumberIsWord(n, format);
      WordIsIndented(NumberText(n, format), m, k);
    case Str(s) => StringIsIndented(s, m, k);
    case Arr(items) =>
      ItemsAreIndented(items, k + 1, format);
      BracketsIndented(0x5B, ItemsText(items, k + 1, false, format), 0x5D, m, k);
    case Obj(ms) =>
      MembersAreIndented(ms, k + 1, format);
      BracketsIndented(0x7B, MembersText(ms, k + 1, false, format), 0x7D, m, k);
  }

  lemma NamesAreWords()
    ensures IsWord(NULL_TEXT) && IsWord(TRUE_TEXT) && IsWord(FALSE_TEXT)
  {}

  lemma RunNothing(step: Step, m: Mode)
    ensures Run(step, [], m) == Some(m)
  {}

  lemma {:induction false} ItemsAreIndented(items: seq<Json>, k: nat, format: Format)
    requires WritesWords(format)
    ensures Run(Indented, ItemsText(items, k, false, format), Indent(k, 0)) == Some(Indent(k, 0))
    decreases items, 0
  {
    hide Run, ValueText, Spaces, Indented, Last, Separator, WritesWords;
    RunNothing(Indented, Indent(k, 0));
    if items != [] {
      ValueIsIndented(items[0], Indent(k, 4 * k), k, format);
      ItemsAreIndented(items[1..], k, format);
      RowIndented(ValueText(items[0], k, false, format), ItemsText(items[1..], k, false, format), |items| == 1, k);
    }
  }

  lemma {:induction false} MemberIsIndented(mb: Member, k: nat, format: Format)
    requires WritesWords(format)
    ensures Run(Indented, MemberText(mb, k, false, format), Indent(k, 4 * k)) == Some(Inside(k))
    decreases mb, 2
  {
    hide Run, ValueText, Escaped, Indented, WritesWords;
    var q := [QUOTE] + Escaped(mb.0) + [QUOTE];
    var v := ValueText(mb.1, k, false, format);
    assert MemberText(mb, k, false, format) == q + [0x3A] + [0x20] + v;
    RunConcat(Indented, q + [0x3A] + [0x20], v, Indent(k, 4 * k));
    RunConcat(Indented, q + [0x3A], [0x20], Indent(k, 4 * k));
    RunConcat(Indented, q, [0x3A], Indent(k, 4 * k));
    StringIsIndented(mb.0, Indent(k, 4 * k), k);
    ColonIndented(k);
    ValueIsIndented(mb.1, Spaced(k), k, format);
  }

  lemma ColonIndented(k: nat)
    ensures Run(Indented, [0x3A], Inside(k)) == Some(Colon(k)) && Run(Indented, [0x20], Colon(k)) == Some(Spaced(k))
  {
    RunOne(Indented, 0x3A, Inside(k));
    RunOne(Indented, 0x20, Colon(k));
  }

  lemma {:induction false} MembersAreIndented(ms: seq<Member>, k: nat, format: Format)
    requires WritesWords(format)
    ensures Run(Indented, MembersText(ms, k, false, format), Indent(k, 0)) == Some(Indent(k, 0))
    decreases ms, 0
  {
    hide Run, MemberText, Spaces, Indented, Last, Separator, WritesWords;
    RunNothing(Indented, Indent(k, 0));
    if ms != [] {
      MemberIsIndented(ms[0], k, format);
      MembersAreIndented(ms[1..], k, format);
      RowIndented(MemberText(ms[0], k, false, format), MembersText(ms[1..], k, false, format), |ms| == 1, k);
    }
  }

  /** The indented text of any document keeps to the lines, and ends with one. */
  lemma DocumentIsIndented(v: Json, format: Format)
    requires WritesWords(format)
    ensures Run(Indented, DocumentText(v, false, format), Indent(0, 0)) == Some(Indent(0, 0))
  {
    hide Run, ValueText, WritesWords;
    ValueIsIndented(v, Indent(0, 0), 0, format);
    RunConcat(Indented, ValueText(v, 0, false, format), [0x0A], Indent(0, 0));
    RunOne(Indented, 0x0A, Inside(0));
  }

  // ---------------------------------------------------------------------
  // Compact text
  // ---------------------------------------------------------------------

  /** Text without space outside of strings. */
  predicate Tight(x: Bytes) {
    Run(Compacted, x, Inside(0)) == Some(Inside(0))
  }

  lemma TightConcat(a: Bytes, b: Bytes)
    requires Tight(a) && Tight(b)
    ensures Tight(a + b)
  {
    RunConcat(Compacted, a, b, Inside(0));
  }

  lemma TightByte(c: byte)
    requires c > 0x20 && c != 0x22
    ensures Tight([c])
  {
    RunOne(Compacted, c, Inside(0));
  }

  lemma {:induction false} TightWord(x: Bytes)
    requires forall k :: 0 <= k < |x| ==> IsWordCharacter(x[k])
    ensures Tight(x)
    decreases |x|
  {
    if x != [] {
      TightWord(x[1..]);
    }
  }

  lemma TightString(s: Bytes)
    ensures Tight([QUOTE] + Escaped(s) + [QUOTE])
  {
    forall u
      ensures InText(Compacted, EscapedByte(u), 0)
    {
      EscapedByteInString(Compacted, u, 0);
    }
    EscapedInString(Compacted, s, 0);
    RunConcat(Compacted, [QUOTE] + Escaped(s), [QUOTE], Inside(0));
    RunConcat(Compacted, [QUOTE], Escaped(s), Inside(0));
    RunOne(Compacted, QUOTE, Inside(0));
    RunOne(Compacted, QUOTE, InString(0));
  }

  lemma TightMarks()
    ensures Tight([]) && Tight([0x5B]) && Tight([0x5D]) && Tight([0x7B]) && Tight([0x7D]) && Tight([0x2C])
    ensures Tight([0x3A])
  {
    RunNothing(Compacted, Inside(0));
    TightByte(0x5B);
    TightByte(0x5D);
    TightByte(0x7B);
    TightByte(0x7D);
    TightByte(0x2C);
    TightByte(0x3A);
  }

  lemma TightBrackets(open: byte, x: Bytes, close: byte)
    requires Tight([open]) && Tight(x) && Tight([close])
    ensures Tight(Open(open, true) + x + Spaces(4 * 0) + [close])
  {
    hide Tight;
    assert Open(open, true) + x + Spaces(4 * 0) + [close] == [open] + x + [close];
    TightConcat([open], x);
    TightConcat([open] + x, [close]);
  }

  lemma {:induction false} ValueIsTight(v: Json, format: Format)
    requires WritesWords(format)
    ensures Tight(ValueText(v, 0, true, format))
    decreases v, 1
  {
    hide Tight, NumberText, Escaped, ItemsText, MembersText, Spaces, Open, WritesWords;
    TightMarks();
    NamesAreWords();
    match v
    case Null => TightWord(NULL_TEXT);
    case Bool(b) => TightWord(if b then TRUE_TEXT else FALSE_TEXT);
    case Num(n) =>
      NumberIsWord(n, format);
      TightWord(NumberText(n, format));
    case Str(s) => TightString(s);
    case Arr(items) =>
      ItemsAreTight(items, format);
      TightBrackets(0x5B, ItemsText(items, 0, true, format), 0x5D);
    case Obj(ms) =>
      MembersAreTight(ms, format);
      TightBrackets(0x7B, MembersText(ms, 0, true, format), 0x7D);
  }

  lemma TightRow(x: Bytes, rest: Bytes, last: bool)
    requires Tight(x) && Tight(rest)
    ensures Tight(Spaces(4 * 0) + x + (if last then Last(true) else Separator(true) + rest))
  {
    hide Tight;
    TightMarks();
    assert Spaces(4 * 0) + x == x;
    if last {
      assert Spaces(4 * 0) + x + Last(true) == x;
    } else {
      TightConcat([0x2C], rest);
      TightConcat(x, [0x2C] + rest);
    }
  }

  lemma {:induction false} ItemsAreTight(items: seq<Json>, format: Format)
    requires WritesWords(format)
    ensures Tight(ItemsText(items, 0, true, format))
    decreases items, 0
  {
    hide Tight, ValueText, Spaces, Last, Separator, WritesWords;
    TightMarks();
    if items != [] {
      ValueIsTight(items[0], format);
      ItemsAreTight(items[1..], format);
      TightRow(ValueText(items[0], 0, true, format), ItemsText(items[1..], 0, true, format), |items| == 1);
    }
  }

  lemma {:induction false} MemberIsTight(mb: Member, format: Format)
    requires WritesWords(format)
    ensures Tight(MemberText(mb, 0, true, format))
    decreases mb, 2
  {
    hide Tight, ValueText, Escaped, WritesWords;
    TightMarks();
    var q, v := [QUOTE] + Escaped(mb.0) + [QUOTE], ValueText(mb.1, 0, true, format);
    assert MemberText(mb, 0, true, format) == q + [0x3A] + v;
    TightString(mb.0);
    ValueIsTight(mb.1, format);
    TightConcat(q, [0x3A]);
    TightConcat(q + [0x3A], v);
  }

  lemma {:induction false} MembersAreTight(ms: seq<Member>, format: Format)
    requires WritesWords(format)
    ensures Tight(MembersText(ms, 0, true, format))
    decreases ms, 0
  {
    hide Tight, MemberText, Spaces, Last, Separator, WritesWords;
    TightMarks();
    if ms != [] {
      MemberIsTight(ms[0], format);
      MembersAreTight(ms[1..], format);
      TightRow(MemberText(ms[0], 0, true, format), MembersText(ms[1..], 0, true, format), |ms| == 1);
    }
  }

  /** The compact text of any document has no space outside of strings. */
  lemma DocumentIsTight(v: Json, format: Format)
    requires WritesWords(format)
    ensures Run(Compacted, DocumentText(v, true, format), Inside(0)) == Some(Inside(0))
  {
    hide Run, ValueText, WritesWords;
    ValueIsTight(v, format);
    assert DocumentText(v, true, format) == ValueText(v, 0, true, format);
  }
}
