/**
  Splitting a `Requires:` line into modules, each a name with an optional operator and
  version. Commas and space separate modules; space may also surround an operator.
 */
module ModuleList {
  import opened Bytes

  const COMMA: byte := 0x2C

  /** `isspace` in the C locale. */
  predicate IsSpace(c: byte) {
    c == 0x20 || 0x09 <= c <= 0x0D
  }

  predicate IsSeparator(c: byte) {
    c == COMMA || IsSpace(c)
  }

  predicate IsOperator(c: byte) {
    c == 0x3C || c == 0x3E || c == 0x21 || c == 0x3D
  }

  predicate IsOther(c: byte) {
    !IsSeparator(c)
  }

  predicate IsNoOperator(c: byte) {
    !IsOperator(c)
  }

  predicate AllSeparators(s: Bytes) {
    forall i :: 0 <= i < |s| ==> IsSeparator(s[i])
  }

  /** Gaps and modules in turn: every module has the gap in front of it. */
  function Weave(gaps: seq<Bytes>, modules: seq<Bytes>): Bytes
    requires |gaps| == |modules|
  {
    if modules == [] then [] else gaps[0] + modules[0] + Weave(gaps[1..], modules[1..])
  }

  function Concat(ss: seq<Bytes>): Bytes {
    if ss == [] then [] else ss[0] + Concat(ss[1..])
  }

  function NonSeparators(s: Bytes): Bytes {
    if s == [] then []
    else if IsSeparator(s[0]) then NonSeparators(s[1..])
    else [s[0]] + NonSeparators(s[1..])
  }

  lemma {:induction false} NonSeparatorsConcat(a: Bytes, b: Bytes)
    ensures NonSeparators(a + b) == NonSeparators(a) + NonSeparators(b)
    decreases |a|
  {
    if a == [] {
      assert a + b == b;
    } else {
      assert (a + b)[1..] == a[1..] + b;
      NonSeparatorsConcat(a[1..], b);
    }
  }

  lemma {:induction false} NothingInGaps(s: Bytes)
    requires AllSeparators(s)
    ensures NonSeparators(s) == []
    decreases |s|
  {
    if s != [] {
      NothingInGaps(s[1..]);
    }
  }

  /** With separators in the gaps, the modules hold all characters but separators, in order. */
  lemma {:induction false} NothingLost(gaps: seq<Bytes>, modules: seq<Bytes>)
    requires |gaps| == |modules| && forall i :: 0 <= i < |gaps| ==> AllSeparators(gaps[i])
    ensures NonSeparators(Concat(modules)) == NonSeparators(Weave(gaps, modules))
    decreases |modules|
  {
    if modules != [] {
      NothingLost(gaps[1..], modules[1..]);
      NothingInGaps(gaps[0]);
      NonSeparatorsConcat(gaps[0] + modules[0], Weave(gaps[1..], modules[1..]));
      NonSeparatorsConcat(gaps[0], modules[0]);
      NonSeparatorsConcat(modules[0], Concat(modules[1..]));
    }
  }

  // ---------------------------------------------------------------------
  // Where modules end
  // ---------------------------------------------------------------------

  /** The first position from `p` on whose character is not `f`. */
  function Skip(s: Bytes, p: nat, f: byte -> bool): (r: nat)
    requires p <= |s|
    ensures p <= r <= |s|
    decreases |s| - p
  {
    if p < |s| && f(s[p]) then Skip(s, p + 1, f) else p
  }

  lemma {:induction false} SkipIs(s: Bytes, p: nat, f: byte -> bool)
    requires p <= |s|
    ensures var r := Skip(s, p, f); Only(s, p, r, f) && (r < |s| ==> !f(s[r]))
    decreases |s| - p
  {
    if p < |s| && f(s[p]) {
      SkipIs(s, p + 1, f);
    }
  }

  /** A version ends at the next separator. */
  function VersionEnd(s: Bytes, p: nat): (e: nat)
    requires p <= |s|
    ensures p <= e <= |s|
  {
    Skip(s, p, IsOther)
  }

  /** Behind an operator: space, any one character, and the rest of a version. */
  function RestEnd(s: Bytes, p: nat): (e: nat)
    requires p <= |s|
    ensures p <= e <= |s|
  {
    var v := Skip(s, p, IsSpace);
    if v == |s| then v else VersionEnd(s, v + 1)
  }

  /** In an operator: the rest of it, and one character behind it whatever that is. */
  function OperatorEnd(s: Bytes, p: nat): (e: nat)
    requires p <= |s|
    ensures p <= e <= |s|
  {
    var o := Skip(s, p, IsOperator);
    if o == |s| then o else RestEnd(s, o + 1)
  }

  function BeforeOperatorEnd(s: Bytes, p: nat): (e: nat)
    requires p <= |s|
    ensures p <= e <= |s|
  {
    var k := Skip(s, p, IsNoOperator);
    if k == |s| then k else OperatorEnd(s, k + 1)
  }

  /** Nothing but space up to the next operator. */
  predicate OperatorAhead(s: Bytes, p: nat)
    requires p <= |s|
  {
    var k := Skip(s, p, IsSpace);
    k < |s| && IsOperator(s[k])
  }

  /** A name ends at the next separator, and the module with it, unless an operator follows behind space. */
  function NameEnd(s: Bytes, p: nat): (e: nat)
    requires p <= |s|
    ensures p <= e <= |s|
  {
    var q := Skip(s, p, IsOther);
    if q < |s| && IsSpace(s[q]) && OperatorAhead(s, q) then BeforeOperatorEnd(s, q) else q
  }

  /** The modules of the line from `p` on. Separators at the end of it count as an empty one. */
  function Modules(s: Bytes, p: nat): (ms: seq<Bytes>)
    requires p <= |s|
    decreases |s| - p
  {
    if p == |s| then []
    else
      var r := Skip(s, p, IsSeparator);
      if r == |s| then [[]]
      else
        var e := NameEnd(s, r + 1);
        [s[r..e]] + Modules(s, e)
  }

  /** The separators in front of each. */
  function Gaps(s: Bytes, p: nat): (gs: seq<Bytes>)
    requires p <= |s|
    ensures |gs| == |Modules(s, p)|
    decreases |s| - p
  {
    if p == |s| then []
    else
      var r := Skip(s, p, IsSeparator);
      if r == |s| then [s[p..]] else [s[p..r]] + Gaps(s, NameEnd(s, r + 1))
  }

  // ---------------------------------------------------------------------
  // What that means
  // ---------------------------------------------------------------------

  /** The stretch of `s` from `a` to `b` has only characters `f`. */
  predicate Only(s: Bytes, a: nat, b: nat, f: byte -> bool) {
    a <= b <= |s| && forall i :: a <= i < b ==> f(s[i])
  }

  /**
    A name without separators; then, possibly, space, an operator, one character, space,
    another character, and more that are not separators. So separators in a module are
    spaces around its operator, except that the two characters may be anything.
   */
  predicate HasShape(m: Bytes, q: nat, k: nat, o: nat, v: nat) {
    && 0 < q && Only(m, 0, q, IsOther)
    && (q < |m| ==>
          && q < k < o && Only(m, q, k, IsSpace) && Only(m, k, o, IsOperator)
          && (o < |m| ==> !IsOperator(m[o]) && o < v && Only(m, o + 1, v, IsSpace)
                          && (v < |m| ==> !IsSpace(m[v]) && Only(m, v + 1, |m|, IsOther))))
  }

  ghost predicate IsModule(m: Bytes) {
    exists q, k, o, v :: HasShape(m, q, k, o, v)
  }

  lemma Characters(c: byte)
    ensures IsSpace(c) ==> IsSeparator(c) && !IsOperator(c)
    ensures IsOperator(c) ==> !IsSeparator(c)
    ensures IsOther(c) <==> !IsSeparator(c)
    ensures IsNoOperator(c) <==> !IsOperator(c)
  {}

  lemma OnlyInSlice(s: Bytes, r: nat, e: nat, a: nat, b: nat, f: byte -> bool)
    requires r <= a <= b <= e <= |s| && Only(s, a, b, f)
    ensures Only(s[r..e], a - r, b - r, f)
  {}

  /** The cut behind a module that starts at `r`: at the end of the line, or in front of a separator. */
  lemma ModuleCut(s: Bytes, r: nat)
    requires r < |s| && !IsSeparator(s[r])
    ensures var e := NameEnd(s, r + 1); IsModule(s[r..e]) && (e < |s| ==> IsSeparator(s[e]))
  {
    hide IsSeparator, IsOperator, IsSpace, HasShape;
    var q := Skip(s, r + 1, IsOther);
    SkipIs(s, r + 1, IsOther);
    Characters(s[r]);
    assert Only(s, r, q, IsOther);
    if q < |s| && IsSpace(s[q]) && OperatorAhead(s, q) {
      VersionedCut(s, r, q);
    } else {
      EndsAtSeparator(s, q);
      NamedCut(s, r, q);
    }
  }

  lemma EndsAtSeparator(s: Bytes, e: nat)
    requires e <= |s| && (e < |s| ==> !IsOther(s[e]))
    ensures e < |s| ==> IsSeparator(s[e])
  {}

  lemma NamedCut(s: Bytes, r: nat, q: nat)
    requires r < q <= |s| && Only(s, r, q, IsOther)
    ensures IsModule(s[r..q])
  {
    OnlyInSlice(s, r, q, r, q, IsOther);
    assert HasShape(s[r..q], q - r, 0, 0, 0);
  }

  /** The look-ahead finds the operator that the name's state waits for. */
  lemma SameOperator(s: Bytes, q: nat)
    requires q <= |s| && OperatorAhead(s, q)
    ensures Skip(s, q, IsNoOperator) == Skip(s, q, IsSpace)
  {
    hide IsOperator, IsSpace;
    var k, j := Skip(s, q, IsSpace), Skip(s, q, IsNoOperator);
    SkipIs(s, q, IsSpace);
    SkipIs(s, q, IsNoOperator);
    if j < k {
      Characters(s[j]);
    } else if k < j {
      Characters(s[k]);
    }
  }

  lemma VersionedCut(s: Bytes, r: nat, q: nat)
    requires r < q < |s| && Only(s, r, q, IsOther) && IsSpace(s[q]) && OperatorAhead(s, q)
    ensures var e := BeforeOperatorEnd(s, q); IsModule(s[r..e]) && (e < |s| ==> IsSeparator(s[e]))
  {
    hide IsSeparator, IsOperator, IsSpace, HasShape, Skip, IsModule, IsOther;
    var e, k := BeforeOperatorEnd(s, q), Skip(s, q, IsSpace);
    SameOperator(s, q);
    SkipIs(s, q, IsSpace);
    var o := Skip(s, k + 1, IsOperator);
    SkipIs(s, k + 1, IsOperator);
    var v := if o < |s| then Skip(s, o + 1, IsSpace) else o;
    if o < |s| {
      SkipIs(s, o + 1, IsSpace);
    }
    if v < |s| {
      SkipIs(s, v + 1, IsOther);
      EndsAtSeparator(s, e);
    }
    assert Only(s, k, o, IsOperator);
    VersionedShape(s, r, e, q, k, o, v);
  }

  lemma VersionedShape(s: Bytes, r: nat, e: nat, q: nat, k: nat, o: nat, v: nat)
    requires r < q < k < o <= v <= e <= |s|
    requires Only(s, r, q, IsOther) && Only(s, q, k, IsSpace) && Only(s, k, o, IsOperator)
    requires o < |s| ==> !IsOperator(s[o]) && o < v && Only(s, o + 1, v, IsSpace)
    requires v < |s| ==> !IsSpace(s[v]) && v < e && Only(s, v + 1, e, IsOther)
    ensures IsModule(s[r..e])
  {
    hide IsOther, IsSpace, IsOperator;
    var m := s[r..e];
    OnlyInSlice(s, r, e, r, q, IsOther);
    OnlyInSlice(s, r, e, q, k, IsSpace);
    OnlyInSlice(s, r, e, k, o, IsOperator);
    if o < |s| {
      OnlyInSlice(s, r, e, o + 1, v, IsSpace);
      if v < |s| {
        OnlyInSlice(s, r, e, v + 1, e, IsOther);
      }
    }
    assert HasShape(m, q - r, k - r, o - r, v - r);
  }

  /** A cut of a stretch of the line: modules of the right shape with separators between them. */
  ghost predicate IsCut(line: Bytes, inFront: bool, gaps: seq<Bytes>, modules: seq<Bytes>) {
    && |gaps| == |modules| && Weave(gaps, modules) == line
    && (forall i :: 0 <= i < |gaps| ==> AllSeparators(gaps[i]) && (i > 0 || inFront ==> gaps[i] != []))
    && (forall i :: 0 <= i < |modules| ==> IsModule(modules[i]) || (i == |modules| - 1 && modules[i] == []))
  }

  /** The line is cut into modules at separators only, and nothing but separators lies between them. */
  lemma {:induction false} ModulesAreCut(s: Bytes, p: nat)
    requires p <= |s| && (p == 0 || p == |s| || IsSeparator(s[p]))
    ensures IsCut(s[p..], p > 0, Gaps(s, p), Modules(s, p))
    decreases |s| - p
  {
    hide IsSeparator, IsModule, NameEnd, Skip, IsCut;
    var r := Skip(s, p, IsSeparator);
    SkipIs(s, p, IsSeparator);
    if p == |s| {
      NothingCut();
    } else if r == |s| {
      GapIs(s, p, r);
      OneGap(s[p..]);
    } else {
      var e := NameEnd(s, r + 1);
      GapIs(s, p, r);
      ModuleCut(s, r);
      ModulesAreCut(s, e);
      assert s[p..] == s[p..r] + s[r..e] + s[e..];
      OneMore(s[e..], Gaps(s, e), Modules(s, e), s[p..r], s[r..e], p > 0);
    }
  }

  lemma GapIs(s: Bytes, p: nat, r: nat)
    requires Only(s, p, r, IsSeparator) && (r < |s| ==> !IsSeparator(s[r]))
    ensures AllSeparators(s[p..r]) && (r == |s| ==> s[p..r] == s[p..])
    ensures p < |s| && IsSeparator(s[p]) ==> s[p..r] != []
  {
    hide IsSeparator;
  }

  lemma NothingCut()
    ensures IsCut([], false, [], []) && IsCut([], true, [], [])
  {}

  lemma OneGap(g: Bytes)
    requires g != [] && AllSeparators(g)
    ensures IsCut(g, true, [g], [[]]) && IsCut(g, false, [g], [[]])
  {
    assert Weave([g][1..], [[]][1..]) == [];
    assert g + [] + [] == g;
  }

  lemma OneMore(line: Bytes, gaps: seq<Bytes>, modules: seq<Bytes>, gap: Bytes, m: Bytes, inFront: bool)
    requires IsCut(line, true, gaps, modules) && AllSeparators(gap) && IsModule(m) && (inFront ==> gap != [])
    ensures IsCut(gap + m + line, inFront, [gap] + gaps, [m] + modules)
  {
    hide IsModule, AllSeparators;
    var gs, ms := [gap] + gaps, [m] + modules;
    assert gs[1..] == gaps && ms[1..] == modules;
    assert forall i :: 0 < i < |gs| ==> gs[i] == gaps[i - 1];
    assert forall i :: 0 < i < |ms| ==> ms[i] == modules[i - 1];
    assert Weave(gs, ms) == gap + m + line;
  }

  /** Cutting the line loses nothing but separators. */
  lemma TextIsKept(s: Bytes)
    ensures NonSeparators(Concat(Modules(s, 0))) == NonSeparators(s)
  {
    hide IsModule;
    assert s[0..] == s;
    ModulesAreCut(s, 0);
    NothingLost(Gaps(s, 0), Modules(s, 0));
  }

  // ---------------------------------------------------------------------
  // Lists as they are written
  // ---------------------------------------------------------------------

  /** A name, with or without an operator and a version. */
  datatype Required = Required(name: Bytes, op: Bytes, version: Bytes)

  function RequiredText(r: Required): Bytes {
    if r.op == [] then r.name else r.name + [0x20] + r.op + [0x20] + r.version
  }

  function Texts(rs: seq<Required>): (ts: seq<Bytes>)
    ensures |ts| == |rs|
  {
    seq(|rs|, k requires 0 <= k < |rs| => RequiredText(rs[k]))
  }

  predicate IsRequired(r: Required) {
    && r.name != [] && (forall k :: 0 <= k < |r.name| ==> IsOther(r.name[k]) && IsNoOperator(r.name[k]))
    && (forall k :: 0 <= k < |r.op| ==> IsOperator(r.op[k]))
    && (r.op != [] ==> r.version != [] && forall k :: 0 <= k < |r.version| ==> IsOther(r.version[k]))
  }

  lemma {:induction false} SkipAt(s: Bytes, p: nat, r: nat, f: byte -> bool)
    requires Only(s, p, r, f) && (r < |s| ==> !f(s[r]))
    ensures Skip(s, p, f) == r
    decreases r - p
  {
    if p < r {
      SkipAt(s, p + 1, r, f);
    }
  }

  /** Behind a requirement the line ends, or there are separators and something that is no operator. */
  predicate EndsAt(s: Bytes, e: nat, next: nat) {
    && e <= next <= |s| && Only(s, e, next, IsSeparator)
    && (if next == |s| then true else e < next && IsOther(s[next]) && IsNoOperator(s[next]))
  }

  lemma NoOperatorAhead(s: Bytes, e: nat, next: nat)
    requires EndsAt(s, e, next)
    ensures !OperatorAhead(s, e)
  {
    hide IsSeparator, IsOperator, IsSpace;
    var k := Skip(s, e, IsSpace);
    SkipIs(s, e, IsSpace);
    if k > next {
      Characters(s[next]);
    }
    if k < |s| {
      Characters(s[k]);
    }
  }

  lemma NameEnds(s: Bytes, r: nat, e: nat, next: nat)
    requires r < e && Only(s, r, e, IsOther) && EndsAt(s, e, next)
    ensures NameEnd(s, r + 1) == e
  {
    hide IsSeparator, IsOperator, IsSpace, Skip;
    NoOperatorAhead(s, e, next);
    if e < |s| {
      Characters(s[e]);
    }
    SkipAt(s, r + 1, e, IsOther);
  }

  /** The stretches of a requirement with an operator. */
  lemma VersionEnds(s: Bytes, r: nat, q: nat, o: nat, e: nat, next: nat)
    requires r < q && Only(s, r, q, IsOther) && q + 1 < o && o + 1 < e && e <= |s| && EndsAt(s, e, next)
    requires s[q] == 0x20 && Only(s, q + 1, o, IsOperator) && s[o] == 0x20 && Only(s, o + 1, e, IsOther)
    ensures NameEnd(s, r + 1) == e
  {
    hide IsSeparator, IsOperator, Skip;
    Characters(s[q]);
    Characters(s[q + 1]);
    Characters(s[o]);
    Characters(s[o + 1]);
    if e < |s| {
      Characters(s[e]);
    }
    SkipAt(s, r + 1, q, IsOther);
    SkipAt(s, q, q + 1, IsSpace);
    SkipAt(s, q, q + 1, IsNoOperator);
    SkipAt(s, q + 2, o, IsOperator);
    SkipAt(s, o + 1, o + 1, IsSpace);
    SkipAt(s, o + 2, e, IsOther);
  }

  lemma RequiredEnds(s: Bytes, r: nat, req: Required, next: nat)
    requires IsRequired(req) && r + |RequiredText(req)| <= |s|
    requires s[r..r + |RequiredText(req)|] == RequiredText(req) && EndsAt(s, r + |RequiredText(req)|, next)
    ensures NameEnd(s, r + 1) == r + |RequiredText(req)| && IsOther(s[r])
  {
    hide IsSeparator, IsOperator, IsSpace, IsOther, IsNoOperator, NameEnd, EndsAt;
    var x := RequiredText(req);
    var q, e := r + |req.name|, r + |x|;
    assert forall k :: r <= k < e ==> s[k] == x[k - r];
    if req.op == [] {
      NameEnds(s, r, e, next);
    } else {
      VersionEnds(s, r, q, q + 1 + |req.op|, e, next);
    }
  }

  /** Requirements with separators in front of each. */
  predicate IsWoven(gaps: seq<Bytes>, rs: seq<Required>, inFront: bool) {
    && |gaps| == |rs| && (forall k :: 0 <= k < |rs| ==> IsRequired(rs[k]) && AllSeparators(gaps[k]))
    && (forall k :: 0 <= k < |rs| && (k > 0 || inFront) ==> gaps[k] != [])
  }

  lemma StartOf(gaps: seq<Bytes>, rs: seq<Required>)
    requires IsWoven(gaps, rs, true) && rs != []
    ensures var w := Weave(gaps, Texts(rs));
            && |gaps[0]| < |w| && gaps[0] != [] && w[..|gaps[0]|] == gaps[0]
            && IsOther(w[|gaps[0]|]) && IsNoOperator(w[|gaps[0]|])
  {
    hide IsOther, IsNoOperator, AllSeparators, IsRequired, RequiredText;
    var w, x := Weave(gaps, Texts(rs)), RequiredText(rs[0]);
    assert IsRequired(rs[0]);
    TextStarts(rs[0]);
    assert w == gaps[0] + (x + Weave(gaps[1..], Texts(rs)[1..]));
    assert w[|gaps[0]|] == x[0];
  }

  lemma TextStarts(r: Required)
    requires IsRequired(r)
    ensures RequiredText(r) != [] && IsOther(RequiredText(r)[0]) && IsNoOperator(RequiredText(r)[0])
  {
    hide IsOther, IsNoOperator, IsOperator;
    assert RequiredText(r)[0] == r.name[0];
  }

  lemma WovenIs(gaps: seq<Bytes>, rs: seq<Required>, inFront: bool)
    requires IsWoven(gaps, rs, inFront) && rs != []
    ensures IsWoven(gaps[1..], rs[1..], true) && IsRequired(rs[0]) && AllSeparators(gaps[0])
    ensures Weave(gaps, Texts(rs)) == gaps[0] + RequiredText(rs[0]) + Weave(gaps[1..], Texts(rs[1..]))
    ensures Texts(rs) == [RequiredText(rs[0])] + Texts(rs[1..])
  {
    hide IsRequired, AllSeparators, RequiredText;
    assert Texts(rs)[1..] == Texts(rs[1..]);
  }

  lemma {:induction false} WovenSplit(s: Bytes, p: nat, gaps: seq<Bytes>, rs: seq<Required>, inFront: bool)
    requires p <= |s| && IsWoven(gaps, rs, inFront) && s[p..] == Weave(gaps, Texts(rs))
    ensures Modules(s, p) == Texts(rs)
    decreases |rs|
  {
    hide IsSeparator, IsRequired, RequiredText, NameEnd, IsOther, IsNoOperator, Skip, Modules, AllSeparators, EndsAt;
    if rs != [] {
      hide Weave, Texts;
      WovenIs(gaps, rs, inFront);
      var g, x, rest := gaps[0], RequiredText(rs[0]), Weave(gaps[1..], Texts(rs[1..]));
      TextStarts(rs[0]);
      WovenPieces(s, p, g, x, rest);
      var r, e := p + |g|, p + |g| + |x|;
      var next := if |rs| == 1 then |s| else e + |gaps[1]|;
      NextStarts(s, e, next, gaps[1..], rs[1..]);
      RequiredEnds(s, r, rs[0], next);
      SeparatorsSkipped(s, p, r);
      NextModule(s, p);
      WovenSplit(s, e, gaps[1..], rs[1..], true);
    } else {
      assert p == |s|;
      NoModules(s);
    }
  }

  lemma WovenPieces(s: Bytes, p: nat, g: Bytes, x: Bytes, rest: Bytes)
    requires p <= |s| && s[p..] == g + x + rest
    ensures p + |g| + |x| <= |s| && s[p..p + |g|] == g && s[p + |g|..p + |g| + |x|] == x && s[p + |g| + |x|..] == rest
  {
    var w := s[p..];
    assert s[p..p + |g|] == w[..|g|] && s[p + |g|..p + |g| + |x|] == w[|g|..|g| + |x|];
    assert s[p + |g| + |x|..] == w[|g| + |x|..];
  }

  lemma NextStarts(s: Bytes, e: nat, next: nat, gaps: seq<Bytes>, rs: seq<Required>)
    requires e <= |s| && IsWoven(gaps, rs, true) && s[e..] == Weave(gaps, Texts(rs))
    requires next == if rs == [] then |s| else e + |gaps[0]|
    ensures EndsAt(s, e, next)
  {
    hide IsSeparator, IsOther, IsNoOperator, IsRequired, RequiredText;
    if rs == [] {
      assert e == |s|;
    } else {
      StartOf(gaps, rs);
      var w := s[e..];
      assert forall k :: e <= k < next ==> s[k] == w[..|gaps[0]|][k - e];
      assert s[next] == w[|gaps[0]|];
    }
  }

  lemma SeparatorsSkipped(s: Bytes, p: nat, r: nat)
    requires p <= r < |s| && AllSeparators(s[p..r]) && IsOther(s[r])
    ensures Skip(s, p, IsSeparator) == r
  {
    assert forall k :: p <= k < r ==> s[k] == s[p..r][k - p];
    SkipAt(s, p, r, IsSeparator);
  }

  /**
    A list of names, some with one of the six operators and a version, with commas and
    space between them, is split into what it was written from.
   */
  lemma ListReadsBack(s: Bytes, gaps: seq<Bytes>, rs: seq<Required>)
    requires |gaps| == |rs| && s == Weave(gaps, Texts(rs))
    requires forall k :: 0 <= k < |rs| ==>
               && rs[k].name != [] && (rs[k].op != [] ==> rs[k].version != [])
               && rs[k].op in {[], [0x3D], [0x3C], [0x3E], [0x3C, 0x3D], [0x3E, 0x3D], [0x21, 0x3D]}
    requires forall k, i :: 0 <= k < |rs| && 0 <= i < |rs[k].name| ==>
               rs[k].name[i] > 0x20 && rs[k].name[i] !in {0x2C, 0x3C, 0x3E, 0x21, 0x3D}
    requires forall k, i :: 0 <= k < |rs| && 0 <= i < |rs[k].version| ==>
               rs[k].version[i] > 0x20 && rs[k].version[i] != 0x2C
    requires forall k, i :: 0 <= k < |gaps| && 0 <= i < |gaps[k]| ==>
               gaps[k][i] in {0x2C, 0x20, 0x09, 0x0A, 0x0B, 0x0C, 0x0D}
    requires forall k :: 0 < k < |gaps| ==> gaps[k] != []
    ensures Modules(s, 0) == Texts(rs)
  {
    hide Weave, Texts, Modules;
    forall k | 0 <= k < |rs|
      ensures IsRequired(rs[k]) && AllSeparators(gaps[k])
    {
      forall i | 0 <= i < |gaps[k]|
        ensures IsSeparator(gaps[k][i])
      {
        assert gaps[k][i] in {0x2C, 0x20, 0x09, 0x0A, 0x0B, 0x0C, 0x0D};
      }
      assert rs[k].op in {[], [0x3D], [0x3C], [0x3E], [0x3C, 0x3D], [0x3E, 0x3D], [0x21, 0x3D]};
    }
    assert s[0..] == s;
    WovenSplit(s, 0, gaps, rs, false);
  }

  // ---------------------------------------------------------------------
  // The state machine
  // ---------------------------------------------------------------------

  datatype State = OutsideModule | InModuleName | BeforeOperator | InOperator | AfterOperator | InModuleVersion

  /** Where a module ends that is in `state` at `p`. */
  function EndFrom(s: Bytes, state: State, p: nat): (e: nat)
    requires p <= |s| && state != OutsideModule
    ensures p <= e <= |s|
  {
    match state
    case InModuleName => NameEnd(s, p)
    case BeforeOperator => BeforeOperatorEnd(s, p)
    case InOperator => OperatorEnd(s, p)
    case AfterOperator => RestEnd(s, p)
    case InModuleVersion => VersionEnd(s, p)
  }

  method SkipSeparators(s: Bytes, start: nat) returns (r: nat)
    requires start <= |s|
    ensures r == Skip(s, start, IsSeparator)
  {
    r := start;
    while r < |s| && IsSeparator(s[r])
      invariant start <= r <= |s| && Skip(s, r, IsSeparator) == Skip(s, start, IsSeparator)
    {
      r := r + 1;
    }
  }

  /** The look-ahead in a module name. */
  method LooksAtOperator(s: Bytes, p: nat) returns (r: bool)
    requires p <= |s|
    ensures r == OperatorAhead(s, p)
  {
    var k := p;
    while k < |s| && IsSpace(s[k])
      invariant p <= k <= |s| && Skip(s, k, IsSpace) == Skip(s, p, IsSpace)
    {
      k := k + 1;
    }
    r := k < |s| && IsOperator(s[k]);
  }

  lemma NameStep(s: Bytes, p: nat)
    requires p < |s|
    ensures NameEnd(s, p) == if !IsSeparator(s[p]) then NameEnd(s, p + 1)
                             else if IsSpace(s[p]) && OperatorAhead(s, p) then BeforeOperatorEnd(s, p) else p
  {
    hide OperatorAhead, BeforeOperatorEnd, IsSpace, IsSeparator;
    Characters(s[p]);
  }

  lemma BeforeOperatorStep(s: Bytes, p: nat)
    requires p < |s|
    ensures BeforeOperatorEnd(s, p) == if IsOperator(s[p]) then OperatorEnd(s, p + 1) else BeforeOperatorEnd(s, p + 1)
  {
    hide OperatorEnd, IsOperator;
    Characters(s[p]);
  }

  lemma OperatorStep(s: Bytes, p: nat)
    requires p < |s|
    ensures OperatorEnd(s, p) == if IsOperator(s[p]) then OperatorEnd(s, p + 1) else RestEnd(s, p + 1)
  {
    hide RestEnd, IsOperator;
  }

  lemma RestStep(s: Bytes, p: nat)
    requires p < |s|
    ensures RestEnd(s, p) == if IsSpace(s[p]) then RestEnd(s, p + 1) else VersionEnd(s, p + 1)
  {
    hide VersionEnd, IsSpace;
  }

  lemma VersionStep(s: Bytes, p: nat)
    requires p < |s|
    ensures VersionEnd(s, p) == if IsSeparator(s[p]) then p else VersionEnd(s, p + 1)
  {
    hide IsSeparator;
    Characters(s[p]);
  }

  /** One turn of the state machine: the module ends here, or where it would have ended. */
  method NextState(s: Bytes, state: State, p: nat) returns (r: State)
    requires p < |s|
    ensures state == OutsideModule ==> r == if IsSeparator(s[p]) then OutsideModule else InModuleName
    ensures state != OutsideModule ==>
              if r == OutsideModule then EndFrom(s, state, p) == p && IsSeparator(s[p])
              else EndFrom(s, state, p) == EndFrom(s, r, p + 1)
  {
    hide IsSeparator, IsOperator, IsSpace, OperatorAhead, NameEnd, BeforeOperatorEnd, OperatorEnd, RestEnd, VersionEnd;
    Characters(s[p]);
    NameStep(s, p);
    BeforeOperatorStep(s, p);
    OperatorStep(s, p);
    RestStep(s, p);
    VersionStep(s, p);
    r := state;
    match state {
      case OutsideModule =>
        if !IsSeparator(s[p]) {
          r := InModuleName;
        }
      case InModuleName =>
        if IsSpace(s[p]) {
          var ahead := LooksAtOperator(s, p);
          r := if ahead then BeforeOperator else OutsideModule;
        } else if IsSeparator(s[p]) {
          r := OutsideModule;
        }
      case BeforeOperator =>
        if IsSpace(s[p]) {
        } else if IsOperator(s[p]) {
          r := InOperator;
        }
      case InOperator =>
        if !IsOperator(s[p]) {
          r := AfterOperator;
        }
      case AfterOperator =>
        if !IsSpace(s[p]) {
          r := InModuleVersion;
        }
      case InModuleVersion =>
        if IsSeparator(s[p]) {
          r := OutsideModule;
        }
    }
  }

  lemma SkipStep(s: Bytes, p: nat)
    requires p <= |s|
    ensures Skip(s, p, IsSeparator) == if p < |s| && IsSeparator(s[p]) then Skip(s, p + 1, IsSeparator) else p
  {
    hide IsSeparator;
  }

  lemma NextModule(s: Bytes, start: nat)
    requires start < |s|
    ensures var from := Skip(s, start, IsSeparator);
            Modules(s, start) ==
            if from == |s| then [[]] else [s[from..NameEnd(s, from + 1)]] + Modules(s, NameEnd(s, from + 1))
  {
    hide NameEnd, Skip;
  }

  lemma NoModules(s: Bytes)
    ensures Modules(s, |s|) == []
  {}

  /** `splitModuleList` */
  method SplitModuleList(s: Bytes) returns (result: seq<Bytes>)
    ensures result == Modules(s, 0)
  {
    hide IsSeparator, NameEnd, OperatorEnd, RestEnd, BeforeOperatorEnd, VersionEnd, Skip, Modules;
    result := [];
    var state := OutsideModule;
    var start, p := 0, 0;
    while p < |s|
      invariant start <= p <= |s| && (p > 0 ==> start < p)
      invariant state == OutsideModule ==> Skip(s, start, IsSeparator) == Skip(s, p, IsSeparator)
      invariant state != OutsideModule ==>
                  var from := Skip(s, start, IsSeparator);
                  from < p && EndFrom(s, state, p) == NameEnd(s, from + 1)
      invariant result + Modules(s, start) == Modules(s, 0)
    {
      SkipStep(s, p);
      var lastState := state;
      state := NextState(s, lastState, p);
      if state == OutsideModule && lastState != OutsideModule {
        NextModule(s, start);
        var from := SkipSeparators(s, start);
        result := result + [s[from..p]];
        start := p;
      }
      p := p + 1;
    }
    SkipStep(s, |s|);
    NoModules(s);
    if p != start {
      NextModule(s, start);
      var from := SkipSeparators(s, start);
      if state != OutsideModule {
        assert NameEnd(s, from + 1) == |s|;
        assert [s[from..p]] + [] == [s[from..p]];
      } else {
        assert s[from..p] == [];
      }
      result := result + [s[from..p]];
    } else {
      assert result + [] == result;
    }
  }
}
