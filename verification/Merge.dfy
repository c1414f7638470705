/**
  Package dependencies: what a package, its transitive dependencies and their flags come
  down to, and the memoised search that computes it for all packages.
 */
module Merge {
  import opened Bytes
  import opened Numbers
  import opened Versions

  /** `PcPackage::Flag` */
  datatype FlagType =
    | LibraryName
    | StaticLibraryName
    | LibraryPath
    | Framework
    | FrameworkPath
    | LinkerFlag
    | IncludePath
    | SystemIncludePath
    | DirAfterIncludePath
    | Define
    | CompilerFlag

  datatype Flag = Flag(kind: FlagType, value: Bytes)

  datatype Requirement = Requirement(name: string, comparison: Comparison, version: Bytes)

  datatype Package = Package(
    name: string,
    version: Bytes,
    libs: seq<Flag>,
    cflags: seq<Flag>,
    requiresPublic: seq<Requirement>,
    requiresPrivate: seq<Requirement>)

  /** Why a package is broken: its file could not be parsed, or the first requirement that is not met. */
  datatype Failure =
    | NotParsed
    | MissingDependency(dependency: Requirement)
    | BrokenDependency(dependency: Requirement)
    | VersionMismatch(dependency: Requirement, present: Bytes)

  datatype Variant = Good(p: Package) | Broken(name: string, failure: Failure)

  function NameOf(v: Variant): string {
    if v.Good? then v.p.name else v.name
  }

  type Graph = map<string, Variant>

  /** A package that has been dealt with, and the packages it consists of, itself last. */
  datatype Entry = Entry(package: Variant, deps: seq<string>)

  predicate WellNamed(g: Graph) {
    forall n :: n in g ==> NameOf(g[n]) == n
  }

  function Requirements(p: Package, staticMode: bool): seq<Requirement> {
    p.requiresPublic + if staticMode then p.requiresPrivate else []
  }

  // ---------------------------------------------------------------------
  // Flags
  // ---------------------------------------------------------------------

  datatype Slot = Libs | CFlags

  type Tagged = (Slot, Flag)

  predicate CanHaveDuplicates(f: Flag) {
    f.kind == LinkerFlag || f.kind == CompilerFlag
  }

  function Tag(slot: Slot, flags: seq<Flag>): (s: seq<Tagged>)
    ensures |s| == |flags| && forall i :: 0 <= i < |s| ==> s[i] == (slot, flags[i])
  {
    seq(|flags|, i requires 0 <= i < |flags| => (slot, flags[i]))
  }

  predicate AllGood(g: Graph, deps: seq<string>) {
    forall i :: 0 <= i < |deps| ==> deps[i] in g && g[deps[i]].Good?
  }

  /** The flags of the packages in `deps`, one package after the other, linker side first. */
  function Stream(g: Graph, deps: seq<string>): seq<Tagged>
    requires AllGood(g, deps)
  {
    if deps == [] then []
    else
      assert deps[0] in g && g[deps[0]].Good?;
      assert forall i :: 0 <= i < |deps[1..]| ==> deps[1..][i] == deps[i + 1];
      Tag(Libs, g[deps[0]].p.libs) + Tag(CFlags, g[deps[0]].p.cflags) + Stream(g, deps[1..])
  }

  /** What `mergeFlags` lets through when it has seen `seen`. */
  function Kept(s: seq<Tagged>, seen: set<Flag>): seq<Tagged> {
    if s == [] then []
    else if CanHaveDuplicates(s[0].1) then [s[0]] + Kept(s[1..], seen)
    else if s[0].1 in seen then Kept(s[1..], seen)
    else [s[0]] + Kept(s[1..], seen + {s[0].1})
  }

  function Seen(s: seq<Tagged>, seen: set<Flag>): set<Flag> {
    if s == [] then seen
    else Seen(s[1..], if CanHaveDuplicates(s[0].1) then seen else seen + {s[0].1})
  }

  function Select(s: seq<Tagged>, slot: Slot): seq<Flag> {
    if s == [] then []
    else if s[0].0 == slot then [s[0].1] + Select(s[1..], slot)
    else Select(s[1..], slot)
  }

  lemma {:induction false} KeptConcat(a: seq<Tagged>, b: seq<Tagged>, seen: set<Flag>)
    ensures Kept(a + b, seen) == Kept(a, seen) + Kept(b, Seen(a, seen))
    ensures Seen(a + b, seen) == Seen(b, Seen(a, seen))
    decreases |a|
  {
    if a == [] {
      assert a + b == b;
    } else {
      assert (a + b)[1..] == a[1..] + b;
      KeptConcat(a[1..], b, seen);
      KeptConcat(a[1..], b, seen + {a[0].1});
      assert a[0].1 in seen ==> seen + {a[0].1} == seen;
    }
  }

  lemma {:induction false} SelectConcat(a: seq<Tagged>, b: seq<Tagged>, slot: Slot)
    ensures Select(a + b, slot) == Select(a, slot) + Select(b, slot)
    decreases |a|
  {
    if a == [] {
      assert a + b == b;
    } else {
      assert (a + b)[1..] == a[1..] + b;
      SelectConcat(a[1..], b, slot);
    }
  }

  function Duplicables(s: seq<Flag>): seq<Flag> {
    if s == [] then []
    else if CanHaveDuplicates(s[0]) then [s[0]] + Duplicables(s[1..])
    else Duplicables(s[1..])
  }

  function Occurrences(s: seq<Tagged>, f: Flag): nat {
    if s == [] then 0 else (if s[0].1 == f then 1 else 0) + Occurrences(s[1..], f)
  }

  /** Flags that may be repeated come through in exactly their order and number. */
  lemma {:induction false} DuplicablesKept(s: seq<Tagged>, seen: set<Flag>, slot: Slot)
    ensures Duplicables(Select(Kept(s, seen), slot)) == Duplicables(Select(s, slot))
    decreases |s|
  {
    if s != [] {
      DuplicablesKept(s[1..], seen, slot);
      DuplicablesKept(s[1..], seen + {s[0].1}, slot);
      Duplicated(s[0], Kept(s[1..], seen), slot);
      Duplicated(s[0], Kept(s[1..], seen + {s[0].1}), slot);
      Duplicated(s[0], s[1..], slot);
      assert [s[0]] + s[1..] == s;
    }
  }

  lemma Duplicated(x: Tagged, s: seq<Tagged>, slot: Slot)
    ensures Duplicables(Select([x] + s, slot)) ==
            (if x.0 == slot && CanHaveDuplicates(x.1) then [x.1] else []) + Duplicables(Select(s, slot))
  {
    assert ([x] + s)[1..] == s;
    assert ([x.1] + Select(s, slot))[1..] == Select(s, slot);
  }

  /** Every other flag that occurs at all comes through exactly once. */
  lemma {:induction false} KeptOnce(s: seq<Tagged>, seen: set<Flag>, f: Flag)
    requires !CanHaveDuplicates(f)
    ensures Occurrences(Kept(s, seen), f) == if f !in seen && Occurrences(s, f) > 0 then 1 else 0
    decreases |s|
  {
    if s != [] {
      var x := s[0];
      KeptOnce(s[1..], seen, f);
      KeptOnce(s[1..], seen + {x.1}, f);
      assert ([x] + Kept(s[1..], seen))[1..] == Kept(s[1..], seen);
      assert ([x] + Kept(s[1..], seen + {x.1}))[1..] == Kept(s[1..], seen + {x.1});
    }
  }

  /** Position of the first occurrence. */
  function First(s: seq<Tagged>, f: Flag): (i: nat)
    ensures i <= |s| && (i < |s| ==> s[i].1 == f) && forall k :: 0 <= k < i ==> s[k].1 != f
  {
    if s == [] || s[0].1 == f then 0 else 1 + First(s[1..], f)
  }

  /** What comes through once comes from its first occurrence, in the order of first occurrences. */
  lemma {:induction false} KeptInOrder(s: seq<Tagged>, seen: set<Flag>, i: nat, j: nat)
    requires i < j < |Kept(s, seen)|
    requires !CanHaveDuplicates(Kept(s, seen)[i].1) && !CanHaveDuplicates(Kept(s, seen)[j].1)
    ensures First(s, Kept(s, seen)[i].1) < First(s, Kept(s, seen)[j].1)
    decreases |s|
  {
    hide CanHaveDuplicates;
    var x := s[0];
    KeptFromFirst(s, seen, i);
    KeptFromFirst(s, seen, j);
    var seen' := if CanHaveDuplicates(x.1) then seen else seen + {x.1};
    if !CanHaveDuplicates(x.1) && x.1 in seen {
      KeptInOrder(s[1..], seen, i, j);
    } else if i > 0 {
      KeptFromFirst(s[1..], seen', i - 1);
      KeptFromFirst(s[1..], seen', j - 1);
      KeptInOrder(s[1..], seen', i - 1, j - 1);
    } else {
      KeptFromFirst(s[1..], seen', j - 1);
    }
  }

  lemma {:induction false} KeptFromFirst(s: seq<Tagged>, seen: set<Flag>, i: nat)
    requires i < |Kept(s, seen)| && !CanHaveDuplicates(Kept(s, seen)[i].1)
    ensures Kept(s, seen)[i].1 !in seen
    ensures First(s, Kept(s, seen)[i].1) < |s|
    ensures s[First(s, Kept(s, seen)[i].1)] == Kept(s, seen)[i]
    decreases |s|
  {
    var x := s[0];
    if CanHaveDuplicates(x.1) {
      KeptFromFirst(s[1..], seen, i - 1);
    } else if x.1 in seen {
      KeptFromFirst(s[1..], seen, i);
    } else if i > 0 {
      KeptFromFirst(s[1..], seen + {x.1}, i - 1);
    }
  }

  // ---------------------------------------------------------------------
  // The plain recursive definition, for graphs without cycles
  // ---------------------------------------------------------------------

  type Rank = map<string, nat>

  /** Every requirement that names a package leads to a lower rank. */
  predicate Acyclic(g: Graph, staticMode: bool, rank: Rank) {
    && WellNamed(g)
    && (forall n :: n in g ==> n in rank)
    && forall n :: n in g && g[n].Good? ==> Lower(g, rank, rank[n], Requirements(g[n].p, staticMode))
  }

  predicate Lower(g: Graph, rank: Rank, r: nat, reqs: seq<Requirement>) {
    forall i :: 0 <= i < |reqs| && reqs[i].name in g ==> reqs[i].name in rank && rank[reqs[i].name] < r
  }

  /** `entry.deps` with those of a dependency appended that are not yet in it. */
  function Joined(acc: seq<string>, deps: seq<string>): (r: seq<string>)
    ensures forall x :: x in r <==> x in acc || x in deps
    decreases |deps|
  {
    if deps == [] then acc
    else if deps[0] in acc then Joined(acc, deps[1..])
    else Joined(acc + [deps[0]], deps[1..])
  }

  function MergedPackage(g: Graph, p: Package, deps: seq<string>): Package
    requires AllGood(g, deps)
  {
    var kept := Kept(Stream(g, deps), {});
    Package(p.name, p.version, Select(kept, Libs), Select(kept, CFlags), [], [])
  }

  function Spec(g: Graph, staticMode: bool, rank: Rank, n: string): (e: Entry)
    requires Acyclic(g, staticMode, rank) && n in g
    ensures AllGood(g, e.deps)
    decreases rank[n], 1
  {
    match g[n]
    case Broken(_, _) => Entry(g[n], [])
    case Good(p) => Collect(g, staticMode, rank, p, Requirements(p, staticMode), [])
  }

  /** The rest of the requirements of `p`, after some that brought in `acc`. */
  function Collect(g: Graph, staticMode: bool, rank: Rank, p: Package, reqs: seq<Requirement>,
      acc: seq<string>): (e: Entry)
    requires Acyclic(g, staticMode, rank) && p.name in g && g[p.name] == Good(p)
    requires Lower(g, rank, rank[p.name], reqs) && AllGood(g, acc)
    ensures AllGood(g, e.deps)
    decreases rank[p.name], 0, |reqs|
  {
    if reqs == [] then
      Entry(Good(MergedPackage(g, p, acc + [p.name])), acc + [p.name])
    else
      var d := reqs[0];
      if d.name !in g then Entry(Broken(p.name, MissingDependency(d)), acc)
      else
        var child := Spec(g, staticMode, rank, d.name);
        if child.package.Broken? then Entry(Broken(p.name, BrokenDependency(d)), acc)
        else if !VersionOk(d.comparison, child.package.p.version, d.version) then
          Entry(Broken(p.name, VersionMismatch(d, child.package.p.version)), acc)
        else
          assert Lower(g, rank, rank[p.name], reqs[1..]);
          Collect(g, staticMode, rank, p, reqs[1..], JoinedGood(g, acc, child.deps))
  }

  function JoinedGood(g: Graph, acc: seq<string>, deps: seq<string>): (r: seq<string>)
    requires AllGood(g, acc) && AllGood(g, deps)
    ensures r == Joined(acc, deps) && AllGood(g, r)
  {
    assert forall x :: x in acc || x in deps ==> x in g && g[x].Good?;
    Joined(acc, deps)
  }

  // ---------------------------------------------------------------------
  // What the definition comes down to
  // ---------------------------------------------------------------------

  /** `d` can be used by a package that requires it. */
  predicate Met(g: Graph, staticMode: bool, rank: Rank, d: Requirement)
    requires Acyclic(g, staticMode, rank)
  {
    && d.name in g
    && Spec(g, staticMode, rank, d.name).package.Good?
    && VersionOk(d.comparison, Spec(g, staticMode, rank, d.name).package.p.version, d.version)
  }

  lemma {:induction false} CollectIsGood(g: Graph, staticMode: bool, rank: Rank, p: Package, reqs: seq<Requirement>,
      acc: seq<string>)
    requires Acyclic(g, staticMode, rank) && p.name in g && g[p.name] == Good(p)
    requires Lower(g, rank, rank[p.name], reqs) && AllGood(g, acc)
    ensures var e := Collect(g, staticMode, rank, p, reqs, acc);
            && NameOf(e.package) == p.name
            && (e.package.Good? ==> e.package.p.version == p.version)
            && (e.package.Good? <==> forall i :: 0 <= i < |reqs| ==> Met(g, staticMode, rank, reqs[i]))
    decreases |reqs|
  {
    if reqs != [] {
      var d := reqs[0];
      assert reqs[0] == d;
      if Met(g, staticMode, rank, d) {
        assert Lower(g, rank, rank[p.name], reqs[1..]);
        CollectIsGood(g, staticMode, rank, p, reqs[1..],
                      JoinedGood(g, acc, Spec(g, staticMode, rank, d.name).deps));
        assert forall i :: 0 < i < |reqs| ==> reqs[i] == reqs[1..][i - 1];
        assert forall i :: 0 <= i < |reqs[1..]| ==> reqs[1..][i] == reqs[i + 1];
      }
    }
  }

  /**
    A package is broken exactly when it was to begin with, or one of its requirements names
    a package that is missing, broken or of a version that does not do.
   */
  lemma BrokenIff(g: Graph, staticMode: bool, rank: Rank, n: string)
    requires Acyclic(g, staticMode, rank) && n in g
    ensures var e := Spec(g, staticMode, rank, n);
            && NameOf(e.package) == n
            && (e.package.Good? <==>
                g[n].Good? && forall i :: 0 <= i < |Requirements(g[n].p, staticMode)| ==>
                                           Met(g, staticMode, rank, Requirements(g[n].p, staticMode)[i]))
            && (e.package.Good? ==> e.package.p.version == g[n].p.version)
  {
    if g[n].Good? {
      CollectIsGood(g, staticMode, rank, g[n].p, Requirements(g[n].p, staticMode), []);
    }
  }

  /** `m` is `n` or required by it, directly or not. */
  predicate Reaches(g: Graph, staticMode: bool, rank: Rank, n: string, m: string)
    requires Acyclic(g, staticMode, rank) && n in g
    decreases rank[n]
  {
    n == m ||
    (g[n].Good? &&
     var reqs := Requirements(g[n].p, staticMode);
     assert Lower(g, rank, rank[n], reqs);
     exists i :: 0 <= i < |reqs| && reqs[i].name in g && Reaches(g, staticMode, rank, reqs[i].name, m))
  }

  lemma {:induction false} ReachesLower(g: Graph, staticMode: bool, rank: Rank, n: string, m: string)
    requires Acyclic(g, staticMode, rank) && n in g && Reaches(g, staticMode, rank, n, m)
    ensures m in g && rank[m] <= rank[n]
    decreases rank[n]
  {
    if n != m {
      var reqs := Requirements(g[n].p, staticMode);
      assert Lower(g, rank, rank[n], reqs);
      var i :| 0 <= i < |reqs| && reqs[i].name in g && Reaches(g, staticMode, rank, reqs[i].name, m);
      ReachesLower(g, staticMode, rank, reqs[i].name, m);
    }
  }

  predicate NoDuplicates(s: seq<string>) {
    forall i, j :: 0 <= i < j < |s| ==> s[i] != s[j]
  }

  /** Every package comes behind all packages it requires. */
  predicate DependenciesFirst(g: Graph, staticMode: bool, s: seq<string>) {
    AllGood(g, s) &&
    forall k, i :: 0 <= k < |s| && 0 <= i < |Requirements(g[s[k]].p, staticMode)| ==>
      Requirements(g[s[k]].p, staticMode)[i].name in s[..k]
  }

  lemma {:induction false} JoinedKeeps(g: Graph, staticMode: bool, acc: seq<string>, deps: seq<string>,
      done: seq<string>)
    requires NoDuplicates(acc) && DependenciesFirst(g, staticMode, acc)
    requires DependenciesFirst(g, staticMode, done + deps) && forall x :: x in done ==> x in acc
    ensures NoDuplicates(Joined(acc, deps)) && DependenciesFirst(g, staticMode, Joined(acc, deps))
    decreases |deps|
  {
    if deps != [] {
      var x := deps[0];
      assert done + [x] + deps[1..] == done + deps;
      if x in acc {
        JoinedKeeps(g, staticMode, acc, deps[1..], done + [x]);
      } else {
        AppendedKeeps(g, staticMode, acc, done + deps, |done|);
        JoinedKeeps(g, staticMode, acc + [x], deps[1..], done + [x]);
      }
    }
  }

  lemma AppendedKeeps(g: Graph, staticMode: bool, acc: seq<string>, s: seq<string>, k: nat)
    requires NoDuplicates(acc) && DependenciesFirst(g, staticMode, acc)
    requires DependenciesFirst(g, staticMode, s) && k < |s| && s[k] !in acc
    requires forall x :: x in s[..k] ==> x in acc
    ensures NoDuplicates(acc + [s[k]]) && DependenciesFirst(g, staticMode, acc + [s[k]])
  {
    var r := acc + [s[k]];
    forall j, i | 0 <= j < |r| && 0 <= i < |Requirements(g[r[j]].p, staticMode)|
      ensures Requirements(g[r[j]].p, staticMode)[i].name in r[..j]
    {
      if j < |acc| {
        assert r[..j] == acc[..j];
      } else {
        assert r[..j] == acc;
      }
    }
  }

  /** What `deps` of a good package is. */
  ghost predicate ListsReachable(g: Graph, staticMode: bool, rank: Rank, n: string, deps: seq<string>)
    requires Acyclic(g, staticMode, rank) && n in g
  {
    && NoDuplicates(deps) && DependenciesFirst(g, staticMode, deps)
    && (forall m :: m in deps ==> Reaches(g, staticMode, rank, n, m))
    && (forall m :: m in g && Reaches(g, staticMode, rank, n, m) ==> m in deps)
    && deps != [] && deps[|deps| - 1] == n
  }

  lemma ReachesBelow(g: Graph, staticMode: bool, rank: Rank, p: Package, i: nat, m: string)
    requires Acyclic(g, staticMode, rank) && p.name in g && g[p.name] == Good(p)
    requires i < |Requirements(p, staticMode)| && Requirements(p, staticMode)[i].name in g
    requires Reaches(g, staticMode, rank, Requirements(p, staticMode)[i].name, m)
    ensures Reaches(g, staticMode, rank, p.name, m) && m in g && rank[m] < rank[p.name]
  {
    assert Lower(g, rank, rank[p.name], Requirements(p, staticMode));
    ReachesLower(g, staticMode, rank, Requirements(p, staticMode)[i].name, m);
  }

  /** `acc` holds exactly what the first `k` requirements of `p` reach. */
  ghost predicate CollectedSoFar(g: Graph, staticMode: bool, rank: Rank, p: Package, k: nat, acc: seq<string>)
    requires Acyclic(g, staticMode, rank) && p.name in g && g[p.name] == Good(p)
    requires k <= |Requirements(p, staticMode)|
  {
    var reqs := Requirements(p, staticMode);
    && NoDuplicates(acc) && DependenciesFirst(g, staticMode, acc)
    && (forall m :: m in acc ==> m in g && rank[m] < rank[p.name] && Reaches(g, staticMode, rank, p.name, m))
    && (forall i :: 0 <= i < k ==> reqs[i].name in g)
    && (forall i, m :: 0 <= i < k && Reaches(g, staticMode, rank, reqs[i].name, m) ==> m in acc)
  }

  lemma ReachesItself(g: Graph, staticMode: bool, rank: Rank, n: string)
    requires Acyclic(g, staticMode, rank) && n in g
    ensures Reaches(g, staticMode, rank, n, n)
  {}

  lemma ReachesFurther(g: Graph, staticMode: bool, rank: Rank, p: Package, m: string)
    requires Acyclic(g, staticMode, rank) && p.name in g && g[p.name] == Good(p)
    requires Reaches(g, staticMode, rank, p.name, m)
    ensures m == p.name || exists i ::
              && 0 <= i < |Requirements(p, staticMode)| && Requirements(p, staticMode)[i].name in g
              && Reaches(g, staticMode, rank, Requirements(p, staticMode)[i].name, m)
  {}

  lemma CollectedAll(g: Graph, staticMode: bool, rank: Rank, p: Package, acc: seq<string>)
    requires Acyclic(g, staticMode, rank) && p.name in g && g[p.name] == Good(p)
    requires CollectedSoFar(g, staticMode, rank, p, |Requirements(p, staticMode)|, acc)
    ensures ListsReachable(g, staticMode, rank, p.name, acc + [p.name])
  {
    hide Reaches, Acyclic;
    var reqs, deps := Requirements(p, staticMode), acc + [p.name];
    forall n | n in g
      ensures Reaches(g, staticMode, rank, n, n)
    {
      ReachesItself(g, staticMode, rank, n);
    }
    forall m | m in g && Reaches(g, staticMode, rank, p.name, m)
      ensures m in deps
    {
      ReachesFurther(g, staticMode, rank, p, m);
    }
    forall k, i | 0 <= k < |deps| && 0 <= i < |Requirements(g[deps[k]].p, staticMode)|
      ensures Requirements(g[deps[k]].p, staticMode)[i].name in deps[..k]
    {
      if k < |acc| {
        assert deps[..k] == acc[..k];
      } else {
        assert deps[..k] == acc && Reaches(g, staticMode, rank, reqs[i].name, reqs[i].name);
      }
    }
  }

  lemma CollectedOneMore(g: Graph, staticMode: bool, rank: Rank, p: Package, k: nat, acc: seq<string>,
      deps: seq<string>)
    requires Acyclic(g, staticMode, rank) && p.name in g && g[p.name] == Good(p)
    requires k < |Requirements(p, staticMode)| && Requirements(p, staticMode)[k].name in g
    requires CollectedSoFar(g, staticMode, rank, p, k, acc)
    requires ListsReachable(g, staticMode, rank, Requirements(p, staticMode)[k].name, deps)
    ensures CollectedSoFar(g, staticMode, rank, p, k + 1, Joined(acc, deps))
  {
    var reqs := Requirements(p, staticMode);
    assert [] + deps == deps;
    JoinedKeeps(g, staticMode, acc, deps, []);
    forall m | m in deps
      ensures m in g && rank[m] < rank[p.name] && Reaches(g, staticMode, rank, p.name, m)
    {
      ReachesBelow(g, staticMode, rank, p, k, m);
    }
    forall m | Reaches(g, staticMode, rank, reqs[k].name, m)
      ensures m in deps
    {
      ReachesLower(g, staticMode, rank, reqs[k].name, m);
    }
  }

  lemma {:induction false} CollectLists(g: Graph, staticMode: bool, rank: Rank, p: Package, k: nat, acc: seq<string>)
    requires Acyclic(g, staticMode, rank) && p.name in g && g[p.name] == Good(p)
    requires k <= |Requirements(p, staticMode)| && AllGood(g, acc)
    requires Lower(g, rank, rank[p.name], Requirements(p, staticMode)[k..])
    requires CollectedSoFar(g, staticMode, rank, p, k, acc)
    requires Collect(g, staticMode, rank, p, Requirements(p, staticMode)[k..], acc).package.Good?
    ensures var e := Collect(g, staticMode, rank, p, Requirements(p, staticMode)[k..], acc);
            && ListsReachable(g, staticMode, rank, p.name, e.deps)
            && e.package.p == MergedPackage(g, p, e.deps)
    decreases rank[p.name], 0, |Requirements(p, staticMode)| - k
  {
    hide CollectedSoFar, ListsReachable, MergedPackage, VersionOk;
    var reqs := Requirements(p, staticMode);
    if k == |reqs| {
      CollectedAll(g, staticMode, rank, p, acc);
    } else {
      assert reqs[k..][0] == reqs[k] && reqs[k..][1..] == reqs[k + 1..];
      assert Lower(g, rank, rank[p.name], reqs[k..][1..]);
      SpecLists(g, staticMode, rank, reqs[k].name);
      var deps := Spec(g, staticMode, rank, reqs[k].name).deps;
      CollectedOneMore(g, staticMode, rank, p, k, acc, deps);
      CollectLists(g, staticMode, rank, p, k + 1, JoinedGood(g, acc, deps));
    }
  }

  /**
    Of a package that is not broken, `deps` lists exactly the packages it reaches, once
    each, dependencies before dependents; and the package is merged from those.
   */
  lemma {:induction false} SpecLists(g: Graph, staticMode: bool, rank: Rank, n: string)
    requires Acyclic(g, staticMode, rank) && n in g && Spec(g, staticMode, rank, n).package.Good?
    ensures var e := Spec(g, staticMode, rank, n);
            && g[n].Good? && ListsReachable(g, staticMode, rank, n, e.deps)
            && e.package.p == MergedPackage(g, g[n].p, e.deps)
    decreases rank[n], 1
  {
    var reqs := Requirements(g[n].p, staticMode);
    assert reqs[0..] == reqs && Lower(g, rank, rank[n], reqs);
    CollectLists(g, staticMode, rank, g[n].p, 0, []);
  }

  // ---------------------------------------------------------------------
  // What becomes of the flags
  // ---------------------------------------------------------------------

  function Count(s: seq<Flag>, f: Flag): nat {
    if s == [] then 0 else (if s[0] == f then 1 else 0) + Count(s[1..], f)
  }

  lemma {:induction false} CountSelected(s: seq<Tagged>, f: Flag)
    ensures Count(Select(s, Libs), f) + Count(Select(s, CFlags), f) == Occurrences(s, f)
    decreases |s|
  {
    if s != [] {
      CountSelected(s[1..], f);
      assert ([s[0].1] + Select(s[1..], Libs))[1..] == Select(s[1..], Libs);
      assert ([s[0].1] + Select(s[1..], CFlags))[1..] == Select(s[1..], CFlags);
    }
  }

  /** Where the `i`-th flag of a slot comes from. */
  function Position(s: seq<Tagged>, slot: Slot, i: nat): (k: nat)
    requires i < |Select(s, slot)|
    ensures k < |s| && s[k] == (slot, Select(s, slot)[i])
  {
    if s[0].0 != slot then 1 + Position(s[1..], slot, i)
    else if i == 0 then 0
    else 1 + Position(s[1..], slot, i - 1)
  }

  lemma {:induction false} PositionsAscend(s: seq<Tagged>, slot: Slot, i: nat, j: nat)
    requires i < j < |Select(s, slot)|
    ensures Position(s, slot, i) < Position(s, slot, j)
    decreases |s|
  {
    if s[0].0 != slot {
      PositionsAscend(s[1..], slot, i, j);
    } else if i > 0 {
      PositionsAscend(s[1..], slot, i - 1, j - 1);
    }
  }

  function Filter(s: seq<Flag>, p: Flag -> bool): seq<Flag> {
    if s == [] then [] else (if p(s[0]) then [s[0]] else []) + Filter(s[1..], p)
  }

  lemma {:induction false} FilterDuplicables(s: seq<Flag>, p: Flag -> bool)
    requires forall f :: p(f) == CanHaveDuplicates(f)
    ensures Filter(s, p) == Duplicables(s)
    decreases |s|
  {
    if s != [] {
      FilterDuplicables(s[1..], p);
    }
  }

  function FlagsIn(m: Package, slot: Slot): seq<Flag> {
    if slot == Libs then m.libs else m.cflags
  }

  /** The flags of the packages in `deps` in one of the lists, one package after the other. */
  function Concatenated(g: Graph, deps: seq<string>, slot: Slot): seq<Flag>
    requires AllGood(g, deps)
  {
    if deps == [] then []
    else
      assert deps[0] in g && g[deps[0]].Good?;
      assert forall i :: 0 <= i < |deps[1..]| ==> deps[1..][i] == deps[i + 1];
      FlagsIn(g[deps[0]].p, slot) + Concatenated(g, deps[1..], slot)
  }

  lemma {:induction false} SelectTag(flags: seq<Flag>, from: Slot, slot: Slot)
    ensures Select(Tag(from, flags), slot) == if from == slot then flags else []
    decreases |flags|
  {
    if flags != [] {
      assert Tag(from, flags)[1..] == Tag(from, flags[1..]);
      SelectTag(flags[1..], from, slot);
      assert [flags[0]] + flags[1..] == flags;
    }
  }

  lemma {:induction false} SelectStream(g: Graph, deps: seq<string>, slot: Slot)
    requires AllGood(g, deps)
    ensures Select(Stream(g, deps), slot) == Concatenated(g, deps, slot)
    decreases |deps|
  {
    hide Select, FlagsIn, Tag;
    SelectNothing(slot);
    if deps != [] {
      assert deps[0] in g && g[deps[0]].Good?;
      assert forall i :: 0 <= i < |deps[1..]| ==> deps[1..][i] == deps[i + 1];
      SelectStream(g, deps[1..], slot);
      SelectPackage(g[deps[0]].p, Stream(g, deps[1..]), slot);
    }
  }

  lemma SelectNothing(slot: Slot)
    ensures Select([], slot) == []
  {}

  lemma SelectPackage(p: Package, rest: seq<Tagged>, slot: Slot)
    ensures Select(Tag(Libs, p.libs) + Tag(CFlags, p.cflags) + rest, slot) == FlagsIn(p, slot) + Select(rest, slot)
  {
    hide Select, Tag;
    var l, c := Tag(Libs, p.libs), Tag(CFlags, p.cflags);
    SelectConcat(l + c, rest, slot);
    SelectConcat(l, c, slot);
    SelectTag(p.libs, Libs, slot);
    SelectTag(p.cflags, CFlags, slot);
    assert FlagsIn(p, slot) == (if slot == Libs then p.libs else []) + (if slot == Libs then [] else p.cflags);
  }

  /** Some package in `deps` has the flag. */
  predicate Occurs(g: Graph, deps: seq<string>, f: Flag)
    requires AllGood(g, deps)
  {
    exists k :: 0 <= k < |deps| && (f in g[deps[k]].p.libs || f in g[deps[k]].p.cflags)
  }

  lemma {:induction false} OccurrencesConcat(a: seq<Tagged>, b: seq<Tagged>, f: Flag)
    ensures Occurrences(a + b, f) == Occurrences(a, f) + Occurrences(b, f)
    decreases |a|
  {
    if a == [] {
      assert a + b == b;
    } else {
      assert (a + b)[1..] == a[1..] + b;
      OccurrencesConcat(a[1..], b, f);
    }
  }

  lemma {:induction false} OccursInTag(slot: Slot, flags: seq<Flag>, f: Flag)
    ensures Occurrences(Tag(slot, flags), f) > 0 <==> f in flags
    decreases |flags|
  {
    if flags != [] {
      assert Tag(slot, flags)[1..] == Tag(slot, flags[1..]);
      OccursInTag(slot, flags[1..], f);
    }
  }

  lemma {:induction false} OccursInStream(g: Graph, deps: seq<string>, f: Flag)
    requires AllGood(g, deps)
    ensures Occurrences(Stream(g, deps), f) > 0 <==> Occurs(g, deps, f)
    decreases |deps|
  {
    if deps != [] {
      assert deps[0] in g && g[deps[0]].Good?;
      assert forall i :: 0 <= i < |deps[1..]| ==> deps[1..][i] == deps[i + 1];
      var l, c := Tag(Libs, g[deps[0]].p.libs), Tag(CFlags, g[deps[0]].p.cflags);
      OccurrencesConcat(l + c, Stream(g, deps[1..]), f);
      OccurrencesConcat(l, c, f);
      OccursInTag(Libs, g[deps[0]].p.libs, f);
      OccursInTag(CFlags, g[deps[0]].p.cflags, f);
      OccursInStream(g, deps[1..], f);
      if Occurs(g, deps, f) {
        var k :| 0 <= k < |deps| && (f in g[deps[k]].p.libs || f in g[deps[k]].p.cflags);
        assert k > 0 ==> deps[1..][k - 1] == deps[k];
      }
    }
  }

  /**
    The flags of a merged package are those of its dependencies: linker flags and compiler
    flags in exactly their order and number, every flag of the other nine kinds exactly
    once over both lists ...
   */
  lemma FlagsConserved(g: Graph, p: Package, deps: seq<string>)
    requires AllGood(g, deps)
    ensures var m := MergedPackage(g, p, deps);
            && Filter(m.libs, (f: Flag) => f.kind == LinkerFlag || f.kind == CompilerFlag) ==
               Filter(Concatenated(g, deps, Libs), (f: Flag) => f.kind == LinkerFlag || f.kind == CompilerFlag)
            && Filter(m.cflags, (f: Flag) => f.kind == LinkerFlag || f.kind == CompilerFlag) ==
               Filter(Concatenated(g, deps, CFlags), (f: Flag) => f.kind == LinkerFlag || f.kind == CompilerFlag)
            && forall f: Flag ::
                 f.kind in {LibraryName, StaticLibraryName, LibraryPath, Framework, FrameworkPath, IncludePath,
                            SystemIncludePath, DirAfterIncludePath, Define} ==>
                   Count(m.libs, f) + Count(m.cflags, f) == if Occurs(g, deps, f) then 1 else 0
  {
    hide Kept, Stream, Filter, Select;
    var m, s := MergedPackage(g, p, deps), Stream(g, deps);
    SelectStream(g, deps, Libs);
    SelectStream(g, deps, CFlags);
    DuplicablesKept(s, {}, Libs);
    DuplicablesKept(s, {}, CFlags);
    forall flags
      ensures Filter(flags, (f: Flag) => f.kind == LinkerFlag || f.kind == CompilerFlag) == Duplicables(flags)
    {
      FilterDuplicables(flags, (f: Flag) => f.kind == LinkerFlag || f.kind == CompilerFlag);
    }
    forall f: Flag | !CanHaveDuplicates(f)
      ensures Count(m.libs, f) + Count(m.cflags, f) == if Occurs(g, deps, f) then 1 else 0
    {
      CountSelected(Kept(s, {}), f);
      KeptOnce(s, {}, f);
      OccursInStream(g, deps, f);
    }
  }

  /** ... in the list of its first occurrence, the linker's side of a package counting before the compiler's ... */
  lemma FlagInFirstSlot(g: Graph, p: Package, deps: seq<string>, f: Flag, k: nat)
    requires AllGood(g, deps) && f.kind != LinkerFlag && f.kind != CompilerFlag
    requires k < |deps| && (f in g[deps[k]].p.libs || f in g[deps[k]].p.cflags)
    requires forall j :: 0 <= j < k ==> f !in g[deps[j]].p.libs && f !in g[deps[j]].p.cflags
    ensures f in MergedPackage(g, p, deps).libs <==> f in g[deps[k]].p.libs
    ensures f in MergedPackage(g, p, deps).cflags <==> f !in g[deps[k]].p.libs
  {
    var s, kept := Stream(g, deps), Kept(Stream(g, deps), {});
    FirstInStream(g, deps, f, k);
    OccursInStream(g, deps, f);
    KeptOnce(s, {}, f);
    FoundKept(kept, f);
    forall slot, i | 0 <= i < |Select(kept, slot)| && Select(kept, slot)[i] == f
      ensures slot == s[First(s, f)].0
    {
      KeptFromFirst(s, {}, Position(kept, slot, i));
    }
  }

  lemma {:induction false} FoundKept(s: seq<Tagged>, f: Flag)
    requires Occurrences(s, f) > 0
    ensures f in Select(s, Libs) || f in Select(s, CFlags)
    decreases |s|
  {
    if s[0].1 != f {
      FoundKept(s[1..], f);
    }
  }

  lemma {:induction false} FirstConcat(a: seq<Tagged>, b: seq<Tagged>, f: Flag)
    ensures First(a + b, f) == if First(a, f) < |a| then First(a, f) else |a| + First(b, f)
    decreases |a|
  {
    if a == [] {
      assert a + b == b;
    } else {
      assert (a + b)[1..] == a[1..] + b;
      FirstConcat(a[1..], b, f);
    }
  }

  lemma FirstInTag(slot: Slot, flags: seq<Flag>, f: Flag)
    ensures First(Tag(slot, flags), f) < |flags| <==> f in flags
  {
    var t := Tag(slot, flags);
    if f in flags {
      var i :| 0 <= i < |flags| && flags[i] == f;
      assert t[i].1 == f;
    }
  }

  lemma {:induction false} FirstInStream(g: Graph, deps: seq<string>, f: Flag, k: nat)
    requires AllGood(g, deps) && k < |deps| && (f in g[deps[k]].p.libs || f in g[deps[k]].p.cflags)
    requires forall j :: 0 <= j < k ==> f !in g[deps[j]].p.libs && f !in g[deps[j]].p.cflags
    ensures var s := Stream(g, deps);
            First(s, f) < |s| && s[First(s, f)].0 == if f in g[deps[k]].p.libs then Libs else CFlags
    decreases |deps|
  {
    assert deps[0] in g && g[deps[0]].Good?;
    assert forall i :: 0 <= i < |deps[1..]| ==> deps[1..][i] == deps[i + 1];
    var l, c, rest := Tag(Libs, g[deps[0]].p.libs), Tag(CFlags, g[deps[0]].p.cflags), Stream(g, deps[1..]);
    FirstInTag(Libs, g[deps[0]].p.libs, f);
    FirstInTag(CFlags, g[deps[0]].p.cflags, f);
    FirstConcat(l + c, rest, f);
    FirstConcat(l, c, f);
    if k > 0 {
      FirstInStream(g, deps[1..], f, k - 1);
    }
  }

  /** ... and in the order of first occurrences. */
  lemma FlagsInOrder(g: Graph, p: Package, deps: seq<string>, slot: Slot, i: nat, j: nat)
    requires AllGood(g, deps)
    requires var flags := FlagsIn(MergedPackage(g, p, deps), slot);
             && i < j < |flags| && flags[i].kind != LinkerFlag && flags[i].kind != CompilerFlag
             && flags[j].kind != LinkerFlag && flags[j].kind != CompilerFlag
    ensures var s, flags := Stream(g, deps), FlagsIn(MergedPackage(g, p, deps), slot);
            First(s, flags[i]) < First(s, flags[j])
  {
    var s := Stream(g, deps);
    var kept := Kept(s, {});
    PositionsAscend(kept, slot, i, j);
    KeptInOrder(s, {}, Position(kept, slot, i), Position(kept, slot, j));
  }

  // ---------------------------------------------------------------------
  // Which requirements count, and which failure is reported
  // ---------------------------------------------------------------------

  /** Private requirements count in static mode only, behind the public ones. */
  lemma RequirementsThatCount(p: Package)
    ensures Requirements(p, true) == p.requiresPublic + p.requiresPrivate
    ensures Requirements(p, false) == p.requiresPublic
  {
    assert p.requiresPublic + [] == p.requiresPublic;
  }

  /**
    A requirement on a package that can be used, both versions written with dots: the
    package's number against the required one where they first differ, or when both end.
   */
  lemma RequirementIsMet(g: Graph, staticMode: bool, rank: Rank, d: Requirement, xs: seq<nat>, ys: seq<nat>, k: nat)
    requires Acyclic(g, staticMode, rank) && d.name in g && Spec(g, staticMode, rank, d.name).package.Good?
    requires xs != [] && forall i :: 0 <= i < |xs| ==> xs[i] < 0x1_0000_0000_0000_0000
    requires ys != [] && forall i :: 0 <= i < |ys| ==> ys[i] < 0x1_0000_0000_0000_0000
    requires g[d.name].Good? && g[d.name].p.version == Dotted(xs) && d.version == Dotted(ys)
    requires forall j: nat :: j < k ==> (if j < |xs| then xs[j] else 0) == (if j < |ys| then ys[j] else 0)
    requires var x, y := if k < |xs| then xs[k] else 0, if k < |ys| then ys[k] else 0;
             x != y || (k >= |xs| && k >= |ys|)
    ensures var x, y := if k < |xs| then xs[k] else 0, if k < |ys| then ys[k] else 0;
            Met(g, staticMode, rank, d) <==>
            match d.comparison
            case LessThan => x < y
            case GreaterThan => x > y
            case LessThanEqual => x <= y
            case GreaterThanEqual => x >= y
            case Equal => x == y
            case NotEqual => x != y
            case AlwaysMatch => true
  {
    hide Dotted, VersionOk, Spec;
    BrokenIff(g, staticMode, rank, d.name);
    WrittenVersions(d.comparison, xs, ys, k);
  }

  /** The first requirement that is not met breaks a package, and its failure says how. */
  lemma FirstUnmet(g: Graph, staticMode: bool, rank: Rank, n: string, i: nat)
    requires Acyclic(g, staticMode, rank) && n in g && g[n].Good?
    requires i < |Requirements(g[n].p, staticMode)|
    requires !Met(g, staticMode, rank, Requirements(g[n].p, staticMode)[i])
    requires forall j :: 0 <= j < i ==> Met(g, staticMode, rank, Requirements(g[n].p, staticMode)[j])
    ensures var d := Requirements(g[n].p, staticMode)[i];
            Spec(g, staticMode, rank, n).package ==
            Broken(n, if d.name !in g then MissingDependency(d)
                      else
                        var child := Spec(g, staticMode, rank, d.name).package;
                        if child.Broken? then BrokenDependency(d) else VersionMismatch(d, child.p.version))
  {
    FirstUnmetOf(g, staticMode, rank, g[n].p, Requirements(g[n].p, staticMode), [], i);
  }

  lemma {:induction false} FirstUnmetOf(g: Graph, staticMode: bool, rank: Rank, p: Package, reqs: seq<Requirement>,
      acc: seq<string>, i: nat)
    requires Acyclic(g, staticMode, rank) && p.name in g && g[p.name] == Good(p)
    requires Lower(g, rank, rank[p.name], reqs) && AllGood(g, acc)
    requires i < |reqs| && !Met(g, staticMode, rank, reqs[i])
    requires forall j :: 0 <= j < i ==> Met(g, staticMode, rank, reqs[j])
    ensures Collect(g, staticMode, rank, p, reqs, acc).package ==
            Broken(p.name, if reqs[i].name !in g then MissingDependency(reqs[i])
                           else
                             var child := Spec(g, staticMode, rank, reqs[i].name).package;
                             if child.Broken? then BrokenDependency(reqs[i])
                             else VersionMismatch(reqs[i], child.p.version))
    decreases |reqs|
  {
    if i > 0 {
      var d := reqs[0];
      assert Met(g, staticMode, rank, d);
      assert Lower(g, rank, rank[p.name], reqs[1..]);
      assert forall j :: 0 <= j < |reqs[1..]| ==> reqs[1..][j] == reqs[j + 1];
      FirstUnmetOf(g, staticMode, rank, p, reqs[1..], JoinedGood(g, acc, Spec(g, staticMode, rank, d.name).deps),
                   i - 1);
    }
  }

  // ---------------------------------------------------------------------
  // `mergeDependencies`
  // ---------------------------------------------------------------------

  /** What an entry holds while it is being worked on: a default-constructed package. */
  const UNFINISHED: Variant := Good(Package("", [], [], [], [], []))

  class Merger {
    const packages: Graph
    const staticMode: bool
    var merged: map<string, Entry>

    ghost predicate Valid()
      reads this
    {
      && WellNamed(packages) && merged.Keys <= packages.Keys
      && forall n :: n in merged ==> AllGood(packages, merged[n].deps)
    }

    /** What is finished is what the definition says; everything unfinished ranks above `r`. */
    ghost predicate Agrees(rank: Rank, open: set<string>)
      requires Acyclic(packages, staticMode, rank)
      reads this
    {
      forall n :: n in merged && n in packages && n !in open ==> merged[n] == Spec(packages, staticMode, rank, n)
    }

    constructor (packages: Graph, staticMode: bool)
      requires WellNamed(packages)
      ensures this.packages == packages && this.staticMode == staticMode && merged == map[]
      ensures Valid()
    {
      this.packages := packages;
      this.staticMode := staticMode;
      merged := map[];
    }

    /** The loop that visits every package. */
    method VisitAll(all: seq<Variant>, ghost rank: Rank)
      requires Valid() && merged == map[] && forall k :: 0 <= k < |all| ==> NameOf(all[k]) in packages
      requires forall n :: n in packages ==> exists k :: 0 <= k < |all| && NameOf(all[k]) == n
      modifies this
      ensures Valid() && merged.Keys == packages.Keys
      ensures Acyclic(packages, staticMode, rank) ==>
                forall n :: n in packages ==> merged[n] == Spec(packages, staticMode, rank, n)
    {
      hide Acyclic, Spec, AllGood;
      for i := 0 to |all|
        invariant Valid() && forall k :: 0 <= k < i ==> NameOf(all[k]) in merged
        invariant Acyclic(packages, staticMode, rank) ==> Agrees(rank, {})
      {
        var e := Visit(NameOf(all[i]), rank, {});
      }
    }

    /** `mergeFlags`; `seen` is what `visitedFlags` holds. */
    method MergeFlags(target: seq<Flag>, source: seq<Flag>, visited: set<Flag>, ghost slot: Slot)
      returns (r: seq<Flag>, seen: set<Flag>)
      ensures r == target + Select(Kept(Tag(slot, source), visited), slot)
      ensures seen == Seen(Tag(slot, source), visited)
    {
      hide Kept, Seen, Select;
      r, seen := target, visited;
      NoFlags(slot);
      assert source[0..] == source;
      var i := 0;
      while i < |source|
        invariant i <= |source|
        invariant r + Select(Kept(Tag(slot, source[i..]), seen), slot) ==
                  target + Select(Kept(Tag(slot, source), visited), slot)
        invariant Seen(Tag(slot, source[i..]), seen) == Seen(Tag(slot, source), visited)
      {
        ghost var rest := Tag(slot, source[i + 1..]);
        assert Tag(slot, source[i..]) == [(slot, source[i])] + rest;
        OneFlag(r, slot, source[i], rest, seen);
        if CanHaveDuplicates(source[i]) {
          r := r + [source[i]];
        } else if source[i] !in seen {
          seen := seen + {source[i]};
          r := r + [source[i]];
        }
        i := i + 1;
      }
      assert Tag(slot, source[i..]) == [];
    }

    /** Dependencies that are not yet in `deps` go to its end; `visited` is what is in it. */
    method AppendNew(deps: seq<string>, visited: set<string>, more: seq<string>) returns (r: seq<string>,
        seen: set<string>)
      requires forall x :: x in visited <==> x in deps
      ensures r == Joined(deps, more) && forall x :: x in seen <==> x in r
    {
      r, seen := deps, visited;
      assert more[0..] == more;
      for i := 0 to |more|
        invariant forall x :: x in seen <==> x in r
        invariant Joined(r, more[i..]) == Joined(deps, more)
      {
        assert more[i..][0] == more[i] && more[i..][1..] == more[i + 1..];
        if more[i] !in seen {
          seen := seen + {more[i]};
          r := r + [more[i]];
        }
      }
    }

    /** The flags of all packages in `deps`. */
    method MergeAllFlags(deps: seq<string>) returns (libs: seq<Flag>, cflags: seq<Flag>)
      requires AllGood(packages, deps)
      ensures libs == Select(Kept(Stream(packages, deps), {}), Libs)
      ensures cflags == Select(Kept(Stream(packages, deps), {}), CFlags)
    {
      hide Kept, Seen, Select;
      var visited: set<Flag> := {};
      libs, cflags := [], [];
      assert deps[0..] == deps;
      for i := 0 to |deps|
        invariant AllGood(packages, deps[i..])
        invariant libs + Select(Kept(Stream(packages, deps[i..]), visited), Libs) ==
                  Select(Kept(Stream(packages, deps), {}), Libs)
        invariant cflags + Select(Kept(Stream(packages, deps[i..]), visited), CFlags) ==
                  Select(Kept(Stream(packages, deps), {}), CFlags)
      {
        var p := packages[deps[i]].p;
        assert deps[i..][0] == deps[i] && deps[i..][1..] == deps[i + 1..];
        ghost var rest := Stream(packages, deps[i + 1..]);
        OnePackage(libs, cflags, p.libs, p.cflags, rest, visited);
        libs, visited := MergeFlags(libs, p.libs, visited, Libs);
        cflags, visited := MergeFlags(cflags, p.cflags, visited, CFlags);
      }
      NoFlags(Libs);
      NoFlags(CFlags);
    }

    /** The recursive search for one package. */
    method Visit(name: string, ghost rank: Rank, ghost open: set<string>) returns (e: Entry)
      requires Valid() && name in packages && open <= merged.Keys
      requires Acyclic(packages, staticMode, rank) ==>
                 Agrees(rank, open) && forall o :: o in open ==> rank[name] < rank[o]
      modifies this
      ensures Valid() && old(merged.Keys) <= merged.Keys && name in merged && e == merged[name]
      ensures forall n :: n in old(merged) ==> merged[n] == old(merged[n])
      ensures Acyclic(packages, staticMode, rank) ==> Agrees(rank, open) && e == Spec(packages, staticMode, rank, name)
      decreases packages.Keys - merged.Keys, 0
    {
      if name in merged {
        return merged[name];
      }
      ghost var left := packages.Keys - merged.Keys;
      merged := merged[name := Entry(UNFINISHED, [])];
      assert name in left && packages.Keys - merged.Keys == left - {name};
      match packages[name] {
        case Broken(_, _) =>
          e := Entry(packages[name], []);
        case Good(p) =>
          e := VisitDependencies(p, rank, open + {name});
      }
      merged := merged[name := e];
    }

    /** The part of the search that goes through the requirements of `p`. */
    method VisitDependencies(p: Package, ghost rank: Rank, ghost open: set<string>) returns (e: Entry)
      requires Valid() && p.name in packages && packages[p.name] == Good(p) && open <= merged.Keys
      requires p.name in open && merged[p.name] == Entry(UNFINISHED, [])
      requires Acyclic(packages, staticMode, rank) ==>
                 Agrees(rank, open) && forall o :: o in open ==> rank[p.name] <= rank[o]
      modifies this
      ensures Valid() && old(merged.Keys) <= merged.Keys && AllGood(packages, e.deps)
      ensures forall n :: n in old(merged) && n != p.name ==> merged[n] == old(merged[n])
      ensures Acyclic(packages, staticMode, rank) ==>
                Agrees(rank, open) && e == Spec(packages, staticMode, rank, p.name)
      decreases packages.Keys - merged.Keys, 2
    {
      hide Acyclic, Spec, Collect, VersionOk, MergedPackage;
      var reqs := Requirements(p, staticMode);
      var deps: seq<string> := [];
      var visited: set<string> := {};
      assert reqs[0..] == reqs;
      if Acyclic(packages, staticMode, rank) {
        CollectStarts(packages, staticMode, rank, p);
      }
      for i := 0 to |reqs|
        invariant Valid() && old(merged.Keys) <= merged.Keys && p.name in merged
            && merged[p.name] == Entry(UNFINISHED, deps)
        invariant AllGood(packages, deps) && forall x :: x in visited <==> x in deps
        invariant forall n :: n in old(merged) && n != p.name ==> merged[n] == old(merged[n])
        invariant Acyclic(packages, staticMode, rank) ==>
                    && Agrees(rank, open) && p.name in rank && Lower(packages, rank, rank[p.name], reqs[i..])
                    && Collect(packages, staticMode, rank, p, reqs[i..], deps) == Spec(packages, staticMode, rank,
                        p.name)
      {
        var d := reqs[i];
        assert reqs[i..][0] == d && reqs[i..][1..] == reqs[i + 1..];
        if Acyclic(packages, staticMode, rank) {
          CollectStep(packages, staticMode, rank, p, reqs[i..], deps);
        }
        var failure;
        failure, deps, visited := VisitOne(p.name, d, deps, visited, rank, open);
        if failure.Some? {
          return Entry(Broken(p.name, failure.value), deps);
        }
      }
      if Acyclic(packages, staticMode, rank) {
        CollectEnds(packages, staticMode, rank, p, deps);
      }
      assert reqs[|reqs|..] == [];
      deps := deps + [p.name];
      e := MergedEntry(p, deps);
    }

    method MergedEntry(p: Package, deps: seq<string>) returns (e: Entry)
      requires AllGood(packages, deps)
      ensures e == Entry(Good(MergedPackage(packages, p, deps)), deps)
    {
      var libs, cflags := MergeAllFlags(deps);
      e := Entry(Good(Package(p.name, p.version, libs, cflags, [], [])), deps);
    }

    /** One requirement of the package called `name`: why it is not met, or what it brings in. */
    method VisitOne(name: string, d: Requirement, deps: seq<string>, visited: set<string>, ghost rank: Rank,
        ghost open: set<string>)
      returns (failure: Option<Failure>, deps': seq<string>, visited': set<string>)
      requires Valid() && name in merged && merged[name] == Entry(UNFINISHED, deps) && open <= merged.Keys
          && name in open
      requires AllGood(packages, deps) && forall x :: x in visited <==> x in deps
      requires Acyclic(packages, staticMode, rank) ==>
                 && Agrees(rank, open)
                 && (forall o :: o in open ==> o in rank && rank[name] <= rank[o])
                 && (d.name in packages ==> d.name in rank && rank[d.name] < rank[name])
      modifies this
      ensures Valid() && old(merged.Keys) <= merged.Keys && name in merged && merged[name] == Entry(UNFINISHED, deps')
      ensures AllGood(packages, deps') && forall x :: x in visited' <==> x in deps'
      ensures forall n :: n in old(merged) && n != name ==> merged[n] == old(merged[n])
      ensures Acyclic(packages, staticMode, rank) ==>
                && Agrees(rank, open)
                && failure == Unmet(packages, staticMode, rank, d)
                && deps' == (if failure.Some? then deps else Joined(deps, Spec(packages, staticMode, rank,
                    d.name).deps))
      decreases packages.Keys - merged.Keys, 1
    {
      hide Acyclic, Spec, VersionOk;
      deps', visited' := deps, visited;
      if d.name !in packages {
        return Some(MissingDependency(d)), deps', visited';
      }
      ghost var left := packages.Keys - merged.Keys;
      var child := Visit(d.name, rank, open);
      if child.package.Broken? {
        return Some(BrokenDependency(d)), deps', visited';
      }
      var versionOk := VersionTest(d.comparison, child.package.p.version, d.version);
      if !versionOk {
        return Some(VersionMismatch(d, child.package.p.version)), deps', visited';
      }
      ghost var joined := JoinedGood(packages, deps, child.deps);
      deps', visited' := AppendNew(deps, visited, child.deps);
      merged := merged[name := Entry(UNFINISHED, deps')];
      failure := None;
    }
  }

  /** Why requirement `d` is not met, if it is not. */
  function Unmet(g: Graph, staticMode: bool, rank: Rank, d: Requirement): Option<Failure>
    requires Acyclic(g, staticMode, rank)
  {
    if d.name !in g then Some(MissingDependency(d))
    else
      var child := Spec(g, staticMode, rank, d.name);
      if child.package.Broken? then Some(BrokenDependency(d))
      else if !VersionOk(d.comparison, child.package.p.version, d.version) then
        Some(VersionMismatch(d, child.package.p.version))
      else None
  }

  lemma CollectStarts(g: Graph, staticMode: bool, rank: Rank, p: Package)
    requires Acyclic(g, staticMode, rank) && p.name in g && g[p.name] == Good(p)
    ensures (forall n :: n in g ==> n in rank) && Lower(g, rank, rank[p.name], Requirements(p, staticMode))
    ensures Collect(g, staticMode, rank, p, Requirements(p, staticMode), []) == Spec(g, staticMode, rank, p.name)
  {}

  lemma CollectStep(g: Graph, staticMode: bool, rank: Rank, p: Package, reqs: seq<Requirement>, acc: seq<string>)
    requires Acyclic(g, staticMode, rank) && p.name in g && g[p.name] == Good(p)
    requires reqs != [] && Lower(g, rank, rank[p.name], reqs) && AllGood(g, acc)
    ensures Lower(g, rank, rank[p.name], reqs[1..])
    ensures reqs[0].name in g ==> reqs[0].name in rank && rank[reqs[0].name] < rank[p.name]
    ensures var u := Unmet(g, staticMode, rank, reqs[0]);
            Collect(g, staticMode, rank, p, reqs, acc) ==
            if u.Some? then Entry(Broken(p.name, u.value), acc)
            else Collect(g, staticMode, rank, p, reqs[1..], JoinedGood(g, acc, Spec(g, staticMode, rank,
                reqs[0].name).deps))
  {
    hide VersionOk;
    assert forall i :: 0 <= i < |reqs[1..]| ==> reqs[1..][i] == reqs[i + 1];
  }

  lemma CollectEnds(g: Graph, staticMode: bool, rank: Rank, p: Package, acc: seq<string>)
    requires Acyclic(g, staticMode, rank) && p.name in g && g[p.name] == Good(p) && AllGood(g, acc)
    ensures Lower(g, rank, rank[p.name], [])
    ensures Collect(g, staticMode, rank, p, [], acc) ==
            Entry(Good(MergedPackage(g, p, acc + [p.name])), acc + [p.name])
  {}

  lemma NoFlags(slot: Slot)
    ensures forall seen :: Kept([], seen) == [] && Seen([], seen) == seen
    ensures Select([], slot) == []
  {}

  lemma {:induction false} OtherSlot(slot: Slot, flags: seq<Flag>, seen: set<Flag>, other: Slot)
    requires other != slot
    ensures Select(Kept(Tag(slot, flags), seen), other) == []
    decreases |flags|
  {
    if flags != [] {
      var x, rest := (slot, flags[0]), Tag(slot, flags[1..]);
      assert Tag(slot, flags) == [x] + rest;
      KeptOne(x, rest, seen);
      OtherSlot(slot, flags[1..], seen, other);
      OtherSlot(slot, flags[1..], seen + {flags[0]}, other);
      assert ([x] + Kept(rest, seen))[1..] == Kept(rest, seen);
      assert ([x] + Kept(rest, seen + {flags[0]}))[1..] == Kept(rest, seen + {flags[0]});
    }
  }

  /** What one package contributes. */
  lemma OnePackage(libs: seq<Flag>, cflags: seq<Flag>, a: seq<Flag>, b: seq<Flag>, rest: seq<Tagged>, seen: set<Flag>)
    ensures var s := Tag(Libs, a) + Tag(CFlags, b) + rest;
            var seen1 := Seen(Tag(Libs, a), seen);
            var seen2 := Seen(Tag(CFlags, b), seen1);
            && libs + Select(Kept(s, seen), Libs) ==
               libs + Select(Kept(Tag(Libs, a), seen), Libs) + Select(Kept(rest, seen2), Libs)
            && cflags + Select(Kept(s, seen), CFlags) ==
               cflags + Select(Kept(Tag(CFlags, b), seen1), CFlags) + Select(Kept(rest, seen2), CFlags)
  {
    hide Kept, Seen, Select;
    var x, y := Tag(Libs, a), Tag(CFlags, b);
    var seen1 := Seen(x, seen);
    var seen2 := Seen(y, seen1);
    KeptConcat(x + y, rest, seen);
    KeptConcat(x, y, seen);
    var k1, k2, k3 := Kept(x, seen), Kept(y, seen1), Kept(rest, seen2);
    SelectThree(k1, k2, k3, Libs);
    SelectThree(k1, k2, k3, CFlags);
    OtherSlot(Libs, a, seen, CFlags);
    OtherSlot(CFlags, b, seen1, Libs);
  }

  lemma SelectThree(a: seq<Tagged>, b: seq<Tagged>, c: seq<Tagged>, slot: Slot)
    ensures Select(a + b + c, slot) == Select(a, slot) + Select(b, slot) + Select(c, slot)
  {
    SelectConcat(a + b, c, slot);
    SelectConcat(a, b, slot);
  }

  predicate UniqueNames(packages: seq<Variant>) {
    forall i, j :: 0 <= i < j < |packages| ==> NameOf(packages[i]) != NameOf(packages[j])
  }

  /** `packageHash` */
  function Hash(packages: seq<Variant>): (g: Graph)
    ensures WellNamed(g)
    ensures forall n :: n in g ==> g[n] in packages
    ensures forall i :: 0 <= i < |packages| ==> NameOf(packages[i]) in g
  {
    if packages == [] then map[]
    else
      var last := |packages| - 1;
      Hash(packages[..last])[NameOf(packages[last]) := packages[last]]
  }

  lemma {:induction false} HashFinds(packages: seq<Variant>, i: nat)
    requires UniqueNames(packages) && i < |packages|
    ensures Hash(packages)[NameOf(packages[i])] == packages[i]
    decreases |packages|
  {
    var last := |packages| - 1;
    if i < last {
      HashFinds(packages[..last], i);
    }
  }

  /** With unique names the graph, and so the result, does not depend on the order of the packages. */
  lemma HashOrder(a: seq<Variant>, b: seq<Variant>)
    requires UniqueNames(a) && UniqueNames(b) && forall v :: v in a <==> v in b
    ensures Hash(a) == Hash(b)
  {
    HashWithin(a, b);
    HashWithin(b, a);
    assert Hash(a).Keys == Hash(b).Keys;
  }

  lemma HashWithin(a: seq<Variant>, b: seq<Variant>)
    requires UniqueNames(b) && forall v :: v in a ==> v in b
    ensures forall n :: n in Hash(a) ==> n in Hash(b) && Hash(b)[n] == Hash(a)[n]
  {
    forall n | n in Hash(a)
      ensures n in Hash(b) && Hash(b)[n] == Hash(a)[n]
    {
      var i :| 0 <= i < |b| && b[i] == Hash(a)[n];
      HashFinds(b, i);
    }
  }

  /**
    `PkgConfig::mergeDependencies`, with its packages in any order: it ends for every graph
    of requirements, and without cycles its result is the plain definition's.
   */
  method MergeDependencies(packages: seq<Variant>, staticMode: bool, ghost rank: Rank) returns (result: map<string,
      Variant>)
    requires UniqueNames(packages)
    ensures result.Keys == Hash(packages).Keys
    ensures Acyclic(Hash(packages), staticMode, rank) ==>
              forall n :: n in result ==> result[n] == Spec(Hash(packages), staticMode, rank, n).package
  {
    hide Acyclic, Spec, AllGood, Hash;
    AllHashed(packages);
    var merger := new Merger(Hash(packages), staticMode);
    merger.VisitAll(packages, rank);
    result := map n | n in merger.merged :: merger.merged[n].package;
  }

  lemma AllHashed(packages: seq<Variant>)
    ensures forall n :: n in Hash(packages) ==> exists k :: 0 <= k < |packages| && NameOf(packages[k]) == n
  {
    forall n | n in Hash(packages)
      ensures exists k :: 0 <= k < |packages| && NameOf(packages[k]) == n
    {
      var v := Hash(packages)[n];
      var k :| 0 <= k < |packages| && packages[k] == v;
      assert NameOf(packages[k]) == n;
    }
  }

  lemma KeptOne(x: Tagged, rest: seq<Tagged>, seen: set<Flag>)
    ensures Kept([x] + rest, seen) ==
            if CanHaveDuplicates(x.1) then [x] + Kept(rest, seen)
            else if x.1 in seen then Kept(rest, seen)
            else [x] + Kept(rest, seen + {x.1})
    ensures Seen([x] + rest, seen) == Seen(rest, if CanHaveDuplicates(x.1) || x.1 in seen then seen else seen + {x.1})
  {
    assert ([x] + rest)[1..] == rest;
    assert x.1 in seen ==> seen + {x.1} == seen;
  }

  lemma OneFlag(r: seq<Flag>, slot: Slot, f: Flag, rest: seq<Tagged>, seen: set<Flag>)
    ensures var kept := r + Select(Kept([(slot, f)] + rest, seen), slot);
            if CanHaveDuplicates(f) then kept == r + [f] + Select(Kept(rest, seen), slot)
            else if f in seen then kept == r + Select(Kept(rest, seen), slot)
            else kept == r + [f] + Select(Kept(rest, seen + {f}), slot)
    ensures Seen([(slot, f)] + rest, seen) ==
            Seen(rest, if CanHaveDuplicates(f) || f in seen then seen else seen + {f})
  {
    hide Kept, Seen;
    var x := (slot, f);
    KeptOne(x, rest, seen);
    SelectOne(x, Kept(rest, seen));
    SelectOne(x, Kept(rest, seen + {f}));
  }

  lemma SelectOne(x: Tagged, s: seq<Tagged>)
    ensures Select([x] + s, x.0) == [x.1] + Select(s, x.0)
  {
    assert ([x] + s)[1..] == s;
  }
}
