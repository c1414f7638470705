/**
  Moving a container's table inside its buffer: the two `memmove`s that open a gap in it,
  and the one that closes a gap.
 */
module Tables {
  import opened Bytes
  import opened Numbers
  import opened Arena
  import opened Blocks
  import opened Layout

  lemma WordsOfSlice(s: Bytes, a: nat, r: Bytes, b: nat, n: nat)
    requires a + 4 * n <= |s| && b + 4 * n <= |r| && s[a..a + 4 * n] == r[b..b + 4 * n]
    ensures Words(s, a, n) == Words(r, b, n)
  {
    hide U32;
    forall i | 0 <= i < n
      ensures U32(s, a + 4 * i) == U32(r, b + 4 * i)
    {
      SliceOfSlice(s, a, a + 4 * n, 4 * i, 4 * i + 4);
      SliceOfSlice(r, b, b + 4 * n, 4 * i, 4 * i + 4);
      U32Moved(s, a + 4 * i, r, b + 4 * i);
    }
  }

  lemma WordsTake(s: Bytes, a: nat, n: nat, k: nat)
    requires a + 4 * n <= |s| && k <= n
    ensures Words(s, a, k) == Words(s, a, n)[..k]
    ensures Words(s, a + 4 * k, n - k) == Words(s, a, n)[k..]
  {
    hide U32;
  }

  /** A table with a word between its two parts. */
  lemma WordsAround(s: Bytes, a: nat, n: nat, k: nat)
    requires a + 4 * (n + 1) <= |s| && k <= n
    ensures Words(s, a, n + 1) == Words(s, a, k) + [U32(s, a + 4 * k)] + Words(s, a + 4 * (k + 1), n - k)
  {
    hide U32;
    WordsTake(s, a, n + 1, k);
    WordsTake(s, a, n + 1, k + 1);
  }

  /**
    Buffer `s` starts with a container: its header, its data region `d`, its table `t`.
    Unlike `Split`, this pins down where the table of an empty container starts.
   */
  predicate Laid(s: Bytes, size: nat, isObject: bool, d: Bytes, t: seq<word>) {
    && HEADER <= |s| && size <= |s| && size % 4 == 0 && |d| % 4 == 0
    && HasHeader(s, size, isObject, |t|, HEADER + |d|)
    && HEADER + |d| + 4 * |t| <= size
    && s[HEADER..HEADER + |d|] == d
    && Words(s, HEADER + |d|, |t|) == t
  }

  lemma LaidSplit(s: Bytes, size: nat, isObject: bool, d: Bytes, t: seq<word>)
    requires Laid(s, size, isObject, d, t)
    ensures Split(s[..size]) == Some(Parts(isObject, if t == [] then [] else d, t))
  {
    var b := s[..size];
    SameHeader(s, b);
    SliceOfSlice(s, 0, size, HEADER, HEADER + |d|);
    SliceOfSlice(s, 0, size, HEADER + |d|, HEADER + |d| + 4 * |t|);
    WordsOfSlice(b, HEADER + |d|, s, HEADER + |d|, |t|);
    SplitIs(b, isObject, d, t);
  }

  lemma SameHeader(s: Bytes, b: Bytes)
    requires |s| >= HEADER && |b| >= HEADER && s[..HEADER] == b[..HEADER]
    ensures Size(s) == Size(b) && IsObject(s) == IsObject(b)
    ensures Length(s) == Length(b) && TableOffset(s) == TableOffset(b)
  {
    SubSlice(s, b, 0, HEADER, 0, 4);
    SubSlice(s, b, 0, HEADER, 4, 8);
    SubSlice(s, b, 0, HEADER, 8, 12);
    U32Moved(s, 0, b, 0);
    U32Moved(s, 4, b, 4);
    U32Moved(s, 8, b, 8);
  }

  lemma SplitLaid(s: Bytes, size: nat, p: Parts)
    requires |s| >= HEADER && size <= |s| && size == Size(s)
    requires Split(s[..size]) == Some(p)
    requires p.table != [] || TableOffset(s) == HEADER
    ensures Laid(s, size, p.isObject, p.data, p.table)
  {
    hide U32;
    var b := s[..size];
    SameHeader(s, b);
    SliceOfSlice(s, 0, size, HEADER, HEADER + |p.data|);
    SliceOfSlice(s, 0, size, HEADER + |p.data|, HEADER + |p.data| + 4 * |p.table|);
    assert b[HEADER..HEADER + |p.data|] == p.data;
    WordsOfSlice(b, HEADER + |p.data|, s, HEADER + |p.data|, |p.table|);
  }

  // ---------------------------------------------------------------------
  // Growing the data region
  // ---------------------------------------------------------------------

  /** The moves for an insertion: first the words from `pos` on, then those before it. */
  function Opened(s: Bytes, tab: nat, n: nat, room: nat, pos: nat): (r: Bytes)
    requires pos <= n && tab + room + 4 * (n + 1) <= |s|
    ensures |r| == |s|
  {
    var r := MemMove(s, tab + 4 * (pos + 1) + room, tab + 4 * pos, 4 * (n - pos));
    MemMove(r, tab + room, tab, 4 * pos)
  }

  lemma OpenedTail(s: Bytes, tab: nat, n: nat, room: nat, pos: nat)
    requires pos <= n && tab + room + 4 * (n + 1) <= |s|
    ensures var r := MemMove(s, tab + 4 * (pos + 1) + room, tab + 4 * pos, 4 * (n - pos));
            && r[..tab + 4 * pos] == s[..tab + 4 * pos]
            && Words(r, tab + room + 4 * (pos + 1), n - pos) == Words(s, tab + 4 * pos, n - pos)
  {
    hide U32, Words;
    var dst, src, len := tab + 4 * (pos + 1) + room, tab + 4 * pos, 4 * (n - pos);
    var r := MemMove(s, dst, src, len);
    SubSlice(r, s, 0, dst, 0, src);
    WordsOfSlice(r, dst, s, src, n - pos);
  }

  lemma OpenedHead(q: Bytes, tab: nat, n: nat, room: nat, pos: nat)
    requires pos <= n && tab + room + 4 * (n + 1) <= |q|
    ensures var r := MemMove(q, tab + room, tab, 4 * pos);
            && r[..tab] == q[..tab]
            && Words(r, tab + room, pos) == Words(q, tab, pos)
            && Words(r, tab + room + 4 * (pos + 1), n - pos) == Words(q, tab + room + 4 * (pos + 1), n - pos)
  {
    hide U32, Words;
    var r := MemMove(q, tab + room, tab, 4 * pos);
    SubSlice(r, q, 0, tab + room, 0, tab);
    WordsOfSlice(r, tab + room, q, tab, pos);
    TailSlice(r, q, tab + room + 4 * pos, tab + room + 4 * (pos + 1), 4 * (n - pos));
    WordsOfSlice(r, tab + room + 4 * (pos + 1), q, tab + room + 4 * (pos + 1), n - pos);
  }

  lemma TailSlice(r: Bytes, q: Bytes, from: nat, at: nat, n: nat)
    requires |r| == |q| && from <= at && at + n <= |r| && r[from..] == q[from..]
    ensures r[at..at + n] == q[at..at + n]
  {
    assert r[from..|r|] == r[from..] && q[from..|q|] == q[from..];
    SubSlice(r, q, from, |r|, at, at + n);
  }

  lemma OpenedIs(s: Bytes, tab: nat, n: nat, room: nat, pos: nat)
    requires pos <= n && tab + room + 4 * (n + 1) <= |s|
    ensures var r := Opened(s, tab, n, room, pos);
            && r[..tab] == s[..tab]
            && Words(r, tab + room, pos) == Words(s, tab, n)[..pos]
            && Words(r, tab + room + 4 * (pos + 1), n - pos) == Words(s, tab, n)[pos..]
  {
    hide U32, Words;
    var q := MemMove(s, tab + 4 * (pos + 1) + room, tab + 4 * pos, 4 * (n - pos));
    OpenedTail(s, tab, n, room, pos);
    OpenedHead(q, tab, n, room, pos);
    SubSlice(q, s, 0, tab + 4 * pos, 0, tab);
    SubSlice(q, s, 0, tab + 4 * pos, tab, tab + 4 * pos);
    WordsOfSlice(q, tab, s, tab, pos);
    WordsTake(s, tab, n, pos);
  }

  /** Writing one header word leaves the others and everything after the header alone. */
  lemma HeaderWordSet(s: Bytes, at: nat, w: word)
    requires |s| >= HEADER && (at == 0 || at == 4 || at == 8)
    ensures var r := SetWord(s, at, w);
            && U32(r, at) == w
            && (at != 0 ==> U32(r, 0) == U32(s, 0))
            && (at != 4 ==> U32(r, 4) == U32(s, 4))
            && (at != 8 ==> U32(r, 8) == U32(s, 8))
            && r[HEADER..] == s[HEADER..]
  {
    var r := SetWord(s, at, w);
    if at != 0 {
      SubSlice(r, s, 0, at, 0, 4);
      U32Moved(r, 0, s, 0);
    }
    if at == 8 {
      SubSlice(r, s, 0, at, 4, 8);
      U32Moved(r, 4, s, 4);
    }
    if at == 0 {
      TailSlice(r, s, 4, 4, 4);
      U32Moved(r, 4, s, 4);
    }
    if at != 8 {
      TailSlice(r, s, at + 4, 8, 4);
      U32Moved(r, 8, s, 8);
    }
    TailSlice(r, s, at + 4, HEADER, |s| - HEADER);
  }

  /** Writing a word after the header: what lies before it and after it stays. */
  lemma BodyWordSet(s: Bytes, at: nat, w: word)
    requires HEADER <= at && at + 4 <= |s|
    ensures var r := SetWord(s, at, w);
            r[..HEADER] == s[..HEADER] && r[..at] == s[..at] && r[at + 4..] == s[at + 4..] && U32(r, at) == w
  {
    SubSlice(SetWord(s, at, w), s, 0, at, 0, HEADER);
  }

  /** The header after an insertion: `size += dataSize; length += 1; size += sizeof(offset)`. */
  function Relabelled(s: Bytes, size: nat, n: nat): (r: Bytes)
    requires HEADER <= |s| && n < 0x2000_0000 && size < 0x8000_0000
    ensures |r| == |s|
  {
    var s1 := SetWord(s, 0, size);
    var s2 := SetWord(s1, 4, U32(s1, 4) % 2 + 2 * n);
    SetWord(s2, 0, size + 4)
  }

  lemma RelabelledIs(s: Bytes, size: nat, n: nat)
    requires HEADER <= |s| && n < 0x2000_0000 && size < 0x8000_0000
    ensures var r := Relabelled(s, size, n);
            HasHeader(r, size + 4, IsObject(s), n, TableOffset(s)) && r[HEADER..] == s[HEADER..]
  {
    hide U32;
    var s1 := SetWord(s, 0, size);
    HeaderWordSet(s, 0, size);
    var w := U32(s1, 4) % 2 + 2 * n;
    HeaderWordSet(s1, 4, w);
    HeaderWordSet(SetWord(s1, 4, w), 0, size + 4);
  }

  /** Table moved, its offset updated, and the new word filled in; sizes are still the old ones. */
  function Gapped(s: Bytes, tab: word, n: nat, room: nat, pos: nat): (r: Bytes)
    requires pos <= n && HEADER <= tab && tab + room + 4 * (n + 1) <= |s| && tab + room + 4 * (n + 1) < 0x8000_0000
    ensures |r| == |s|
  {
    var s1 := Opened(s, tab, n, room, pos);
    var s2 := SetWord(s1, 8, tab + room);
    SetWord(s2, tab + room + 4 * pos, tab)
  }

  lemma GappedIs(s: Bytes, tab: word, n: nat, room: nat, pos: nat)
    requires pos <= n && HEADER <= tab && tab + room + 4 * (n + 1) <= |s| && tab + room + 4 * (n + 1) < 0x8000_0000
    ensures var r := Gapped(s, tab, n, room, pos);
            && Size(r) == Size(s) && IsObject(r) == IsObject(s) && Length(r) == Length(s)
            && TableOffset(r) == tab + room
            && Words(r, tab + room, n + 1) == Inserted<word>(Words(s, tab, n), pos, tab)
            && r[HEADER..tab] == s[HEADER..tab]
  {
    hide U32, Words, MemMove;
    OpenedIs(s, tab, n, room, pos);
    var s1 := Opened(s, tab, n, room, pos);
    SubSlice(s1, s, 0, tab, 0, HEADER);
    SameHeader(s1, s);
    var s2 := SetWord(s1, 8, tab + room);
    HeaderWordSet(s1, 8, tab + room);
    var at := tab + room + 4 * pos;
    var s3 := SetWord(s2, at, tab);
    BodyWordSet(s2, at, tab);
    SameHeader(s3, s2);
    GappedTable(s, s1, s2, s3, tab, n, room, pos);
    SubSlice(s3, s2, 0, at, HEADER, tab);
    TailSlice(s2, s1, HEADER, HEADER, tab - HEADER);
    SubSlice(s1, s, 0, tab, HEADER, tab);
  }

  /** `reserveSpace` for an insertion at `pos`, after the size check. */
  lemma ReservedIs(s: Bytes, g: Bytes, r: Bytes, size: nat, isObject: bool, d: Bytes, t: seq<word>,
                   tab: word, room: nat, pos: nat)
    requires Laid(s, size, isObject, d, t) && tab == HEADER + |d|
    requires pos <= |t| && room % 4 == 0 && size + room + 4 <= |s| && size + room + 4 < 0x8000_0000
    requires g == Gapped(s, tab, |t|, room, pos)
    requires r == Relabelled(g, size + room, |t| + 1)
    ensures Laid(r, size + room + 4, isObject, d + r[tab..tab + room], Inserted<word>(t, pos, tab))
  {
    hide U32, Words, Gapped, Relabelled;
    var n := |t|;
    GappedIs(s, tab, n, room, pos);
    RelabelledIs(g, size + room, n + 1);
    TailSlice(r, g, HEADER, HEADER, |d|);
    TailSlice(r, g, HEADER, tab + room, 4 * (n + 1));
    WordsOfSlice(r, tab + room, g, tab + room, n + 1);
    assert r[HEADER..tab + room] == r[HEADER..tab] + r[tab..tab + room];
  }

  lemma GappedTable(s: Bytes, s1: Bytes, s2: Bytes, s3: Bytes, tab: word, n: nat, room: nat, pos: nat)
    requires pos <= n && HEADER <= tab < TWO_TO_THE_32 && tab + room + 4 * (n + 1) <= |s| == |s1| == |s2| == |s3|
    requires Words(s1, tab + room, pos) == Words(s, tab, n)[..pos]
    requires Words(s1, tab + room + 4 * (pos + 1), n - pos) == Words(s, tab, n)[pos..]
    requires s2[HEADER..] == s1[HEADER..]
    requires var at := tab + room + 4 * pos;
             s3[..at] == s2[..at] && s3[at + 4..] == s2[at + 4..] && U32(s3, at) == tab
    ensures Words(s3, tab + room, n + 1) == Inserted<word>(Words(s, tab, n), pos, tab)
  {
    hide U32, Words;
    var at := tab + room + 4 * pos;
    SubSlice(s3, s2, 0, at, tab + room, at);
    TailSlice(s2, s1, HEADER, tab + room, 4 * pos);
    WordsOfSlice(s3, tab + room, s1, tab + room, pos);
    TailSlice(s3, s2, at + 4, at + 4, 4 * (n - pos));
    TailSlice(s2, s1, HEADER, at + 4, 4 * (n - pos));
    WordsOfSlice(s3, at + 4, s1, at + 4, n - pos);
    WordsAround(s3, tab + room, n, pos);
  }

  // ---------------------------------------------------------------------
  // Replacing a table word, with new data
  // ---------------------------------------------------------------------

  lemma WordReplaced(s: Bytes, a: nat, n: nat, k: nat, r: Bytes)
    requires a + 4 * n <= |s| == |r| && k < n
    requires r[..a + 4 * k] == s[..a + 4 * k] && r[a + 4 * k + 4..] == s[a + 4 * k + 4..]
    ensures Words(r, a, n) == Words(s, a, n)[k := U32(r, a + 4 * k)]
  {
    hide U32;
    SubSlice(r, s, 0, a + 4 * k, a, a + 4 * k);
    WordsOfSlice(r, a, s, a, k);
    TailSlice(r, s, a + 4 * k + 4, a + 4 * (k + 1), 4 * (n - k - 1));
    WordsOfSlice(r, a + 4 * (k + 1), s, a + 4 * (k + 1), n - k - 1);
    WordsAround(r, a, n - 1, k);
    WordsAround(s, a, n - 1, k);
  }

  /** The table moved as a whole, its offset updated, and the word at `pos` overwritten. */
  function Shifted(s: Bytes, tab: word, n: nat, room: nat, pos: nat): (r: Bytes)
    requires pos < n && HEADER <= tab && tab + room + 4 * n <= |s| && tab + room + 4 * n < 0x8000_0000
    ensures |r| == |s|
  {
    var s1 := MemMove(s, tab + room, tab, 4 * n);
    var s2 := SetWord(s1, 8, tab + room);
    SetWord(s2, tab + room + 4 * pos, tab)
  }

  lemma ShiftedIs(s: Bytes, tab: word, n: nat, room: nat, pos: nat)
    requires pos < n && HEADER <= tab && tab + room + 4 * n <= |s| && tab + room + 4 * n < 0x8000_0000
    ensures var r := Shifted(s, tab, n, room, pos);
            && Size(r) == Size(s) && IsObject(r) == IsObject(s) && Length(r) == Length(s)
            && TableOffset(r) == tab + room
            && Words(r, tab + room, n) == Words(s, tab, n)[pos := tab]
            && r[HEADER..tab] == s[HEADER..tab]
  {
    hide U32, Words;
    var s1 := MemMove(s, tab + room, tab, 4 * n);
    SubSlice(s1, s, 0, tab + room, 0, HEADER);
    SubSlice(s1, s, 0, tab + room, HEADER, tab);
    SameHeader(s1, s);
    WordsOfSlice(s1, tab + room, s, tab, n);
    var s2 := SetWord(s1, 8, tab + room);
    HeaderWordSet(s1, 8, tab + room);
    TailSlice(s2, s1, HEADER, HEADER, tab - HEADER);
    TailSlice(s2, s1, HEADER, tab + room, 4 * n);
    WordsOfSlice(s2, tab + room, s1, tab + room, n);
    ShiftedWord(s2, tab, n, room, pos);
  }

  lemma ShiftedWord(s2: Bytes, tab: word, n: nat, room: nat, pos: nat)
    requires pos < n && HEADER <= tab && tab + room + 4 * n <= |s2| && tab + room + 4 * n < 0x8000_0000
    ensures var r := SetWord(s2, tab + room + 4 * pos, tab);
            && Size(r) == Size(s2) && IsObject(r) == IsObject(s2) && Length(r) == Length(s2)
            && TableOffset(r) == TableOffset(s2)
            && Words(r, tab + room, n) == Words(s2, tab + room, n)[pos := tab]
            && r[HEADER..tab] == s2[HEADER..tab]
  {
    hide U32, Words;
    var at := tab + room + 4 * pos;
    var r := SetWord(s2, at, tab);
    BodyWordSet(s2, at, tab);
    SameHeader(r, s2);
    WordReplaced(s2, tab + room, n, pos, r);
    SubSlice(r, s2, 0, at, HEADER, tab);
  }

  /** `reserveSpace` for a replacement at `pos`, after the size check. */
  lemma ReplacedIs(s: Bytes, g: Bytes, r: Bytes, size: nat, isObject: bool, d: Bytes, t: seq<word>,
                   tab: word, room: nat, pos: nat)
    requires Laid(s, size, isObject, d, t) && tab == HEADER + |d|
    requires pos < |t| && room % 4 == 0 && size + room <= |s| && size + room < 0x8000_0000
    requires g == Shifted(s, tab, |t|, room, pos)
    requires r == SetWord(g, 0, size + room)
    ensures Laid(r, size + room, isObject, d + r[tab..tab + room], t[pos := tab])
  {
    hide U32, Words, Shifted, SetWord;
    var n := |t|;
    ShiftedIs(s, tab, n, room, pos);
    HeaderWordSet(g, 0, size + room);
    TailSlice(r, g, HEADER, HEADER, |d|);
    TailSlice(r, g, HEADER, tab + room, 4 * n);
    WordsOfSlice(r, tab + room, g, tab + room, n);
    assert r[HEADER..tab + room] == r[HEADER..tab] + r[tab..tab + room];
  }

  // ---------------------------------------------------------------------
  // Removing a table word; writing a table word; writing data
  // ---------------------------------------------------------------------

  /** `removeItems` of one item: the words after it move down, and nothing moves when it is the last. */
  function Closed(s: Bytes, tab: nat, n: nat, pos: nat): (r: Bytes)
    requires pos < n && tab + 4 * n <= |s|
    ensures |r| == |s|
  {
    if pos + 1 < n then MemMove(s, tab + 4 * pos, tab + 4 * (pos + 1), 4 * (n - pos - 1)) else s
  }

  lemma ClosedIs(s: Bytes, tab: nat, n: nat, pos: nat)
    requires pos < n && tab + 4 * n <= |s|
    ensures var r := Closed(s, tab, n, pos);
            && r[..tab] == s[..tab]
            && Words(r, tab, n - 1) == Removed(Words(s, tab, n), pos)
  {
    hide U32, Words;
    var r := Closed(s, tab, n, pos);
    WordsTake(r, tab, n - 1, pos);
    WordsTake(s, tab, n, pos);
    WordsTake(s, tab, n, pos + 1);
    if pos + 1 < n {
      SubSlice(r, s, 0, tab + 4 * pos, 0, tab);
      SubSlice(r, s, 0, tab + 4 * pos, tab, tab + 4 * pos);
      WordsOfSlice(r, tab + 4 * pos, s, tab + 4 * (pos + 1), n - pos - 1);
    }
    WordsOfSlice(r, tab, s, tab, pos);
  }

  /** All of `removeItems` for one item of the container at the start of `s`. */
  function WithoutWord(s: Bytes, pos: nat): (r: Bytes)
    requires |s| >= HEADER && pos < Length(s) && TableOffset(s) + 4 * Length(s) <= |s|
    ensures |r| == |s|
  {
    var c := Closed(s, TableOffset(s), Length(s), pos);
    SetWord(c, 4, U32(c, 4) % 2 + 2 * (Length(s) - 1))
  }

  lemma RemovedIs(s: Bytes, r: Bytes, size: nat, isObject: bool, d: Bytes, t: seq<word>, pos: nat)
    requires Laid(s, size, isObject, d, t) && pos < |t| && size < 0x8000_0000
    requires var c := Closed(s, HEADER + |d|, |t|, pos);
             r == SetWord(c, 4, U32(c, 4) % 2 + 2 * (|t| - 1))
    ensures Laid(r, size, isObject, d, Removed(t, pos))
  {
    hide U32, Words, Closed, SetWord;
    var tab, n := HEADER + |d|, |t|;
    var c := Closed(s, tab, n, pos);
    ClosedIs(s, tab, n, pos);
    SubSlice(c, s, 0, tab, 0, HEADER);
    SubSlice(c, s, 0, tab, HEADER, tab);
    SameHeader(c, s);
    HeaderWordSet(c, 4, U32(c, 4) % 2 + 2 * (n - 1));
    TailSlice(r, c, HEADER, HEADER, |d|);
    TailSlice(r, c, HEADER, tab, 4 * (n - 1));
    WordsOfSlice(r, tab, c, tab, n - 1);
  }

  lemma TableWordSet(s: Bytes, size: nat, isObject: bool, d: Bytes, t: seq<word>, pos: nat, w: word)
    requires Laid(s, size, isObject, d, t) && pos < |t|
    ensures Laid(SetWord(s, HEADER + |d| + 4 * pos, w), size, isObject, d, t[pos := w])
  {
    hide U32, Words, SetWord;
    var at := HEADER + |d| + 4 * pos;
    var r := SetWord(s, at, w);
    BodyWordSet(s, at, w);
    SameHeader(r, s);
    SubSlice(r, s, 0, at, HEADER, HEADER + |d|);
    WordReplaced(s, HEADER + |d|, |t|, pos, r);
  }

  /** Filling the data region from `k` on. */
  lemma DataWritten(s: Bytes, size: nat, isObject: bool, d: Bytes, t: seq<word>, k: nat, x: Bytes)
    requires Laid(s, size, isObject, d, t) && k + |x| <= |d|
    ensures Laid(Write(s, HEADER + k, x), size, isObject, Write(d, k, x), t)
  {
    hide U32, Words;
    var at := HEADER + k;
    var r := Write(s, at, x);
    SubSlice(r, s, 0, at, 0, HEADER);
    SameHeader(r, s);
    SubSlice(r, s, 0, at, HEADER, at);
    TailSlice(r, s, at + |x|, at + |x|, |d| - k - |x|);
    TailSlice(r, s, at + |x|, HEADER + |d|, 4 * |t|);
    WordsOfSlice(r, HEADER + |d|, s, HEADER + |d|, |t|);
    WrittenSlice(s, r, d, k, x);
  }

  lemma WrittenSlice(s: Bytes, r: Bytes, d: Bytes, k: nat, x: Bytes)
    requires HEADER + |d| <= |s| == |r| && k + |x| <= |d| && s[HEADER..HEADER + |d|] == d
    requires r[HEADER..HEADER + k] == s[HEADER..HEADER + k] && r[HEADER + k..HEADER + k + |x|] == x
    requires r[HEADER + k + |x|..HEADER + |d|] == s[HEADER + k + |x|..HEADER + |d|]
    ensures r[HEADER..HEADER + |d|] == Write(d, k, x)
  {
    SliceOfSlice(s, HEADER, HEADER + |d|, 0, k);
    SliceOfSlice(s, HEADER, HEADER + |d|, k + |x|, |d|);
    assert r[HEADER..HEADER + |d|] ==
           r[HEADER..HEADER + k] + r[HEADER + k..HEADER + k + |x|] + r[HEADER + k + |x|..HEADER + |d|];
  }
}
