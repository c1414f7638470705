/**
  Handles on shared buffers: `JsonArray` and `JsonObject`, which share `Data` by reference
  count and copy it before they write. Every method takes the set of live handles, keeps
  all reference counts equal to the number of live handles on a buffer, and leaves what
  every other handle shows alone.
 */
module Handles {
  import opened Bytes
  import opened Numbers
  import opened Json
  import opened Arena
  import opened Layout
  import opened Search
  import opened Values
  import opened Store
  import opened Binary

  /** `clone` computes with twice the size, file header included, in an `int`. */
  const SIZE_LIMIT: nat := 0x3FFF_FFF0

  predicate IsContainer(m: Bytes, base: nat, isObject: bool) {
    ContentsAt(m, base, isObject).Some? && U32(m, base) <= SIZE_LIMIT
  }

  /** Garbage `c` among `n` items or members is worth a compaction. */
  predicate IsDue(c: nat, n: nat) {
    c > 32 && c >= n / 2
  }

  /** A buffer that `compact` can work on: its root is well-formed as what its tag says. */
  predicate CanCompact(m: Bytes) {
    HasBlockAt(m, 0) && Doc(BlockAt(m, 0)).Some? && U32(m, 0) <= SIZE_LIMIT
  }

  function Empty(isObject: bool): Json {
    if isObject then Obj([]) else Arr([])
  }

  ghost function Sharers(live: set<Handle>, d: Data): set<Handle>
    reads live
  {
    set h | h in live && h.d == d
  }

  lemma LosesOne(live: set<Handle>, h: Handle, d: Data)
    requires h in live && h.d == d
    ensures |Sharers(live - {h}, d)| == |Sharers(live, d)| - 1
    ensures forall g :: g in live - {h} && |Sharers(live - {h}, d)| == 0 ==> g.d != d
  {
    assert Sharers(live - {h}, d) == Sharers(live, d) - {h};
    forall g | g in live - {h} && g.d == d
      ensures |Sharers(live - {h}, d)| > 0
    {
      assert g in Sharers(live - {h}, d);
    }
  }

  lemma GainsOne(live: set<Handle>, h: Handle, d: Data)
    requires h !in live && h.d == d
    ensures |Sharers(live + {h}, d)| == |Sharers(live, d)| + 1
  {
    assert Sharers(live + {h}, d) == Sharers(live, d) + {h};
  }

  lemma SameSharers(live: set<Handle>, h: Handle, d: Data)
    requires h.d != d
    ensures Sharers(live + {h}, d) == Sharers(live, d) == Sharers(live - {h}, d)
  {}

  /** All handles show well-formed containers, and every buffer counts the handles on it. */
  ghost predicate Consistent(live: set<Handle>)
    reads live, set h | h in live && h.d != null :: h.d
  {
    forall h :: h in live ==> h.Valid() && (h.d != null ==> h.d.ref == |Sharers(live, h.d)|)
  }

  class Handle {
    var d: Data?
    /** Where the container starts in the buffer; 0 for its root. */
    var base: nat
    const isObject: bool

    ghost predicate Valid()
      reads this`d, this`base, (if d == null then {} else {d})`body
    {
      d != null ==> IsContainer(d.body, base, isObject)
    }

    /** The value the handle shows. */
    ghost function View(): Option<Json>
      reads this`d, this`base, (if d == null then {} else {d})`body
    {
      if d == null then Some(Empty(isObject)) else ContentsAt(d.body, base, isObject)
    }

    /** The only handle on a buffer, but not at its root: `detach` without a reserve leaves it there. */
    ghost predicate AloneInside()
      reads this, d
    {
      d != null && d.ref == 1 && base != 0
    }

    /** The block is tagged as what the handle uses it as. */
    ghost predicate Tagged()
      reads this`d, this`base, (if d == null then {} else {d})`body
    {
      d != null && HasBlockAt(d.body, base) ==> IsObject(BlockAt(d.body, base)) == isObject
    }

    /** Compaction of the block as a root keeps what the handle shows. */
    ghost predicate Sound()
      reads this`d, this`base, (if d == null then {} else {d})`body
    {
      Tagged() && (d != null && HasBlockAt(d.body, base) ==> BlockFits(BlockAt(d.body, base)))
    }

    /** The compaction counter once a shared handle has a buffer to itself. */
    ghost function Counter(): nat
      reads this, d
    {
      if d != null && base == 0 then d.compactionCounter else 0
    }

    /** A handle without data, as the default constructors make it. */
    constructor (isObject: bool, ghost live: set<Handle>)
      requires Consistent(live)
      ensures Consistent(live + {this}) && fresh(this)
      ensures this.isObject == isObject && View() == Some(Empty(isObject)) && Tagged()
    {
      d := null;
      base := 0;
      this.isObject := isObject;
      new;
      forall h: Handle | h in live && h.d != null
        ensures Sharers(live + {this}, h.d) == Sharers(live, h.d)
      {
        SameSharers(live, this, h.d);
      }
    }

    /** A handle on the root of a buffer that has just been made, parsed or loaded, and that no handle is on. */
    constructor OnRoot(x: Data, isObject: bool, ghost live: set<Handle>)
      requires Consistent(live) && x.ref == 0 && forall h :: h in live ==> h.d != x
      requires x.RootDoc().Some? && (x.RootDoc().value.Obj? <==> isObject) && Size(x.body) <= SIZE_LIMIT
      modifies x`ref
      ensures Consistent(live + {this}) && fresh(this) && Tagged()
      ensures d == x && base == 0 && this.isObject == isObject && View() == old(x.RootDoc())
      ensures forall g :: g in live ==> g.View() == old(g.View()) && g.Tagged() == old(g.Tagged())
    {
      hide Contents;
      d := x;
      base := 0;
      this.isObject := isObject;
      new;
      RootContainer(x, isObject);
      FreshIsUnshared(live, x);
      GainsOne(live, this, x);
      x.ref := x.ref + 1;
      forall h | h in live && h.d != null
        ensures Sharers(live + {this}, h.d) == Sharers(live, h.d)
      {
        SameSharers(live, this, h.d);
      }
    }

    /** At a root, the handle shows the document exactly when the tag is right; then the document passes `valid()`. */
    lemma ShownIsDocument()
      requires Valid() && d != null && base == 0
      ensures d.HasRoot() && (d.RootDoc() == View() <==> Tagged())
      ensures Tagged() ==>
                && ValidRoot(d.Root()) && HasFileHeader(FileHeader() + d.Root())
                && BodyOf(FileHeader() + d.Root()) == d.Root()
    {
      hide Contents, ValidRoot, HasFileHeader, FileHeader, BodyOf;
      SoleRoot();
      d.TaggedRoot(isObject);
      if Tagged() {
        SavedIsAccepted(d.Root());
      }
    }

    /** The copy constructors. */
    constructor Copy(other: Handle, ghost live: set<Handle>)
      requires other in live && Consistent(live)
      modifies other.d
      ensures Consistent(live + {this}) && fresh(this)
      ensures d == other.d && base == other.base && isObject == other.isObject && View() == old(other.View())
      ensures Tagged() == old(other.Tagged())
      ensures d != null ==> d.ref == old(other.d.ref) + 1 && d.body == old(other.d.body)
      ensures d != null ==> d.compactionCounter == old(other.d.compactionCounter)
      ensures forall g :: g in live ==> g.View() == old(g.View()) && g.Tagged() == old(g.Tagged())
    {
      hide IsContainer, ContentsAt;
      d := other.d;
      base := other.base;
      isObject := other.isObject;
      new;
      if d != null {
        GainsOne(live, this, d);
        d.ref := d.ref + 1;
      }
      forall h | h in live && h.d != null && h.d != d
        ensures Sharers(live + {this}, h.d) == Sharers(live, h.d)
      {
        SameSharers(live, this, h.d);
      }
    }

    /** The destructors. A buffer whose last handle goes is deleted: then no live handle is on it. */
    method Destroy(ghost live: set<Handle>)
      requires this in live && Consistent(live)
      modifies d
      ensures Consistent(live - {this})
      ensures forall g :: g in live ==> g.View() == old(g.View()) && g.Tagged() == old(g.Tagged())
      ensures d != null && d.ref == 0 ==> forall g :: g in live - {this} ==> g.d != d
    {
      hide IsContainer, ContentsAt;
      if d != null {
        LosesOne(live, this, d);
        d.ref := d.ref - 1;
      }
      forall h | h in live && h.d != null && h.d != d
        ensures Sharers(live - {this}, h.d) == Sharers(live, h.d)
      {
        SameSharers(live, this, h.d);
      }
    }

    /** `d` becomes `x`, which already counts this handle; the old buffer loses it. */
    method MoveTo(x: Data?, base': nat, ghost live: set<Handle>)
      requires this in live && (forall h :: h in live ==> h.Valid())
      requires x != d
      requires forall h :: h in live && h.d != null && h.d != x ==> h.d.ref == |Sharers(live, h.d)|
      requires x != null ==> x.ref == |Sharers(live, x)| + 1 && IsContainer(x.body, base', isObject)
      modifies this`d, this`base, d
      ensures d == x && base == base' && Consistent(live)
      ensures old(d) != null ==> old(d).body == old(d.body) && old(d).ref == old(d.ref) - 1
      ensures old(d) != null ==> old(d).compactionCounter == old(d.compactionCounter)
      ensures forall g :: g in live && g != this ==> g.View() == old(g.View()) && g.Tagged() == old(g.Tagged())
    {
      hide IsContainer, ContentsAt, Handle.Tagged, Handle.View;
      ghost var d0 := d;
      if d != null {
        d.ref := d.ref - 1;
      }
      d := x;
      base := base';
      assert x != null ==> Sharers(live, x) == old(Sharers(live, x)) + {this};
      assert d0 != null ==> Sharers(live, d0) == old(Sharers(live, d0)) - {this};
      forall h | h in live && h.d != null && h.d != x && h.d != d0
        ensures h.d.ref == |Sharers(live, h.d)|
      {
        assert Sharers(live, h.d) == old(Sharers(live, h.d));
      }
    }

    /** The assignment operators. */
    method Assign(other: Handle, ghost live: set<Handle>)
      requires this in live && other in live && Consistent(live) && isObject == other.isObject
      modifies this, d, other.d
      ensures Consistent(live) && View() == old(other.View()) && Tagged() == old(other.Tagged())
      ensures d == other.d && base == other.base
      ensures forall g :: g in live && g != this ==> g.View() == old(g.View()) && g.Tagged() == old(g.Tagged())
    {
      hide IsContainer, ContentsAt;
      if this == other {
        return;
      }
      if d != other.d {
        if other.d != null {
          other.d.ref := other.d.ref + 1;
        }
        MoveTo(other.d, other.base, live);
      } else {
        base := other.base;
        forall h | h in live && h.d != null
          ensures Sharers(live, h.d) == old(Sharers(live, h.d))
        {
        }
      }
    }

    // -------------------------------------------------------------------
    // Getting a buffer to oneself
    // -------------------------------------------------------------------

    lemma OnlySharer(live: set<Handle>, g: Handle)
      requires this in live && g in live && Consistent(live) && d != null && d.ref == 1 && g.d == d
      ensures g == this
    {
      assert {this, g} <= Sharers(live, d);
      if g != this {
        assert |{this, g}| == 2;
        Subset({this, g}, Sharers(live, d));
      }
    }

    lemma SharedByTwo(live: set<Handle>, g: Handle)
      requires this in live && g in live && Consistent(live) && d != null && g.d == d && g != this
      ensures d.ref != 1
    {
      if d.ref == 1 {
        OnlySharer(live, g);
      }
    }

    lemma SoleRoot()
      requires Valid() && d != null && base == 0
      ensures d.HasRoot() && d.RootAs(isObject) == View() && Size(d.body) <= SIZE_LIMIT
      ensures Tagged() <==> d.IsTagged(isObject)
      ensures Sound() <==> d.IsTagged(isObject) && d.RootFits()
    {
      hide Contents, BlockFits;
      assert d.body[0..Size(d.body)] == d.body[..Size(d.body)];
      RootHeader(d.body);
    }

    /** The part of `detach` for a handle without data. */
    method GetData(reserve: nat, ghost live: set<Handle>)
      requires this in live && Consistent(live) && d == null
      modifies this`d, this`base
      ensures Consistent(live) && View() == old(View())
      ensures d != null && d.ref == 1 && fresh(d) && base == 0 && d.compactionCounter == 0
      ensures HasBlockAt(d.body, 0) && U32(d.body, 0) + reserve <= |d.body| && U32(d.body, 0) == HEADER
      ensures Sound()
      ensures forall g :: g in live && g != this ==>
                g.View() == old(g.View()) && g.Tagged() == old(g.Tagged()) && g.d != d
    {
      hide ContentsAt, IsContainer, BlockFits;
      var x := new Data(reserve, isObject);
      x.ref := x.ref + 1;
      NewContainer(x, isObject);
      FreshIsUnshared(live, x);
      MoveTo(x, 0, live);
    }

    /**
      `detach`: afterwards the handle is at the root of a buffer that nobody else is on.
      Without a reserve, one that is the only handle on its buffer stays where it is.
     */
    method Detach(reserve: nat, ghost live: set<Handle>)
      requires this in live && Consistent(live)
      modifies this, d
      ensures Consistent(live) && View() == old(View())
      ensures d != null && d.ref == 1 && (d == old(d) || fresh(d))
      ensures old(AloneInside()) && reserve == 0 ==>
                && d == old(d) && base == old(base) && d.body == old(d.body)
                && d.compactionCounter == old(d.compactionCounter)
      ensures !old(AloneInside()) || reserve > 0 ==> base == 0 && d.compactionCounter == old(Counter())
      ensures old(d) != null ==> old(d).body == old(d.body) && old(d).ref >= old(d.ref) - 1
      ensures old(d) != null ==> old(d).compactionCounter == old(d.compactionCounter)
      ensures HasBlockAt(d.body, base) && base + U32(d.body, base) + reserve <= |d.body|
      ensures U32(d.body, base) == old(BlockSize())
      ensures old(d) != null ==> old(HasBlockAt(d.body, base)) && BlockAt(d.body, base) == old(BlockAt(d.body, base))
      ensures reserve == 0 && old(d != null && d.ref == 1) ==> d == old(d)
      ensures (old(Tagged()) ==> Tagged()) && (old(Sound()) ==> Sound())
      ensures forall g :: g in live && g != this ==>
                g.View() == old(g.View()) && g.Tagged() == old(g.Tagged()) && g.d != d
    {
      hide ContentsAt, IsContainer, BlockFits;
      if d == null {
        GetData(reserve, live);
        return;
      }
      ContainerBlock(d.body, base, isObject);
      if reserve == 0 && d.ref == 1 {
        ItIsMine(live);
        return;
      }
      var x := d.Clone(base, reserve);
      if x == d {
        ItIsMine(live);
      } else {
        SameContainer(d.body, base, x.body, isObject);
        x.ref := x.ref + 1;
        FreshIsUnshared(live, x);
        MoveTo(x, 0, live);
        ItIsMine(live);
      }
    }

    lemma ItIsMine(live: set<Handle>)
      requires this in live && Consistent(live) && d != null && d.ref == 1
      ensures forall g :: g in live && g != this ==> g.d != d
    {
      forall g | g in live && g != this
        ensures g.d != d
      {
        if g.d == d {
          OnlySharer(live, g);
        }
      }
    }

    /** Size of the container in bytes; that of an empty one when there is no data yet. */
    ghost function BlockSize(): nat
      requires Valid()
      reads this, d
    {
      if d == null then HEADER else U32(d.body, base)
    }

    /** The buffer is this handle's alone. */
    ghost predicate Owns(live: set<Handle>)
      reads this, d, live
    {
      this in live && d != null && d.ref == 1 && forall g :: g in live && g != this ==> g.d != d
    }

    lemma OwnedRoot(live: set<Handle>)
      requires Consistent(live) && this in live && d != null && d.ref == 1 && base == 0
      ensures Owns(live) && d.HasRoot() && d.RootAs(isObject) == View() && Size(d.body) <= SIZE_LIMIT
      ensures View().Some?
    {
      hide Contents;
      ItIsMine(live);
      SoleRoot();
    }

    lemma OwnedView(live: set<Handle>)
      requires Owns(live) && base == 0 && d.RootAs(isObject).Some? && Size(d.body) <= SIZE_LIMIT
      ensures Valid() && View() == d.RootAs(isObject)
    {
      hide Contents;
      assert d.body[0..Size(d.body)] == d.body[..Size(d.body)];
    }

    /**
      `compact` of a handle. The value stays, the garbage goes, and nobody else notices;
      except that a handle alone inside a container ends up at the root of its buffer.
     */
    method Compact(ghost live: set<Handle>)
      requires this in live && Consistent(live)
      requires d != null && d.compactionCounter != 0 ==>
                 if AloneInside() then CanCompact(d.body) else base == 0 ==> Sound()
      modifies this, d
      ensures !old(AloneInside()) ==> Consistent(live) && View() == old(View()) && (old(Tagged()) ==> Tagged())
      ensures (d == old(d) || fresh(d)) && (old(d != null && d.ref == 1) ==> d == old(d))
      ensures old(d == null || d.compactionCounter == 0) ==>
                && Consistent(live) && View() == old(View()) && d == old(d) && base == old(base)
                && Tagged() == old(Tagged()) && (d != null ==> d.body == old(d.body) && d.ref == old(d.ref))
      ensures old(d != null && base == 0 && d.compactionCounter != 0) ==>
                d != null && d.ref == 1 && base == 0 && d.IsTight() && d.compactionCounter == 0 && Tagged()
      ensures old(AloneInside() && d.compactionCounter != 0) ==>
                d == old(d) && d.ref == 1 && ShowsRoot(live, old(d.body))
      ensures forall g :: g in live && g != this ==> g.View() == old(g.View()) && g.Tagged() == old(g.Tagged())
    {
      hide ContentsAt, IsContainer;
      if d == null || d.compactionCounter == 0 {
        return;
      }
      Detach(0, live);
      if base == 0 {
        CompactOwned(live);
      } else {
        CompactOuter(live);
      }
    }

    /**
      The handle is at the root of its compacted buffer, which held `m` before. It shows
      the document there if that is of its kind, and otherwise misreads it.
     */
    ghost predicate ShowsRoot(live: set<Handle>, m: Bytes)
      reads this, d, live, set h | h in live && h.d != null :: h.d
    {
      && d != null && base == 0 && d.compactionCounter == 0 && CanCompact(m) && View() == d.RootAs(isObject)
      && var b := BlockAt(m, 0);
         BlockFits(b) ==>
           && d.RootDoc() == Doc(b) && d.IsTight()
           && (View() == Doc(b) <==> IsObject(b) == isObject)
           && (IsObject(b) == isObject ==> Consistent(live))
    }

    /** The other handles are on other buffers, and counted there. */
    lemma OthersElsewhere(live: set<Handle>)
      requires this in live && Consistent(live) && d != null && d.ref == 1
      ensures forall g :: g in live && g != this ==>
                g.d != d && g.Valid() && (g.d != null ==> g.d.ref == |Sharers(live, g.d)|)
    {
      hide ContentsAt, IsContainer;
      ItIsMine(live);
    }

    lemma RootShown(live: set<Handle>, m: Bytes)
      requires this in live && d != null && d.ref == 1 && base == 0 && d.compactionCounter == 0 && CanCompact(m)
      requires (forall g :: g in live && g != this ==> g.d != d)
      requires d.HasRoot() && Size(d.body) <= SIZE_LIMIT && d.IsTagged(IsObject(BlockAt(m, 0)))
      requires BlockFits(BlockAt(m, 0)) ==> d.RootDoc() == Doc(BlockAt(m, 0)) && d.IsTight()
      requires forall g :: g in live && g != this ==> g.Valid() && (g.d != null ==> g.d.ref == |Sharers(live, g.d)|)
      ensures ShowsRoot(live, m)
    {
      hide Contents, BlockFits, Data.IsTight;
      assert d.body[0..Size(d.body)] == d.body[..Size(d.body)];
      if BlockFits(BlockAt(m, 0)) {
        d.RootTagged();
      }
      assert Sharers(live, d) == {this};
    }

    /** `d->compact()` on a buffer whose only handle is inside; then the handle is moved to the root. */
    method CompactOuter(ghost live: set<Handle>)
      requires this in live && Consistent(live) && d != null && d.ref == 1 && d.compactionCounter != 0
      requires CanCompact(d.body)
      modifies this`base, d
      ensures d == old(d) && d.ref == 1 && ShowsRoot(live, old(d.body))
      ensures forall g :: g in live && g != this ==> g.View() == old(g.View()) && g.Tagged() == old(g.Tagged())
    {
      hide ContentsAt, IsContainer, Contents, Doc, U32, Data.IsTight, BlockFits, CanCompact, Handle.ShowsRoot;
      CompactableRoot(d);
      OthersElsewhere(live);
      d.Compact();
      base := 0;
      forall g | g in live && g.d != null
        ensures Sharers(live, g.d) == old(Sharers(live, g.d))
      {
      }
      RootShown(live, old(d.body));
    }

    /** `d->compact()`, and the handle is at the root it was at before. */
    method CompactOwned(ghost live: set<Handle>)
      requires this in live && Consistent(live) && d != null && d.ref == 1 && base == 0
      requires d.compactionCounter != 0 ==> Sound()
      modifies d
      ensures Consistent(live) && View() == old(View()) && d.ref == 1 && d.compactionCounter == 0
      ensures old(d.compactionCounter) == 0 ==> d.body == old(d.body)
      ensures old(d.compactionCounter) != 0 ==> d.IsTight()
      ensures old(Tagged()) ==> Tagged()
      ensures HasBlockAt(old(d.body), 0) && HasBlockAt(d.body, 0) && U32(d.body, 0) <= U32(old(d.body), 0)
      ensures forall g :: g in live && g != this ==> g.View() == old(g.View()) && g.Tagged() == old(g.Tagged())
    {
      hide ContentsAt, IsContainer, Contents, Data.IsTight, BlockFits;
      OwnedRoot(live);
      SoleRoot();
      d.TaggedRoot(isObject);
      d.Compact();
      if old(d.compactionCounter) != 0 {
        d.RootTagged();
      }
      OwnedView(live);
      SoleRoot();
    }

    /** There is garbage enough for a compaction. */
    ghost predicate IsDueNow()
      reads this, d
    {
      d != null && HasBlockAt(d.body, base) && IsDue(d.compactionCounter, Length(BlockAt(d.body, base)))
    }

    /** The check at the end of every edit that leaves garbage behind. */
    method CompactIfDue(ghost live: set<Handle>)
      requires this in live && Consistent(live) && d != null && d.ref == 1
      requires IsDueNow() ==> if base == 0 then Sound() else CanCompact(d.body)
      modifies this, d
      ensures d == old(d) && d.ref == 1
      ensures !old(IsDueNow()) ==>
                && Consistent(live) && View() == old(View())
                && base == old(base) && d.body == old(d.body) && d.compactionCounter == old(d.compactionCounter)
      ensures old(IsDueNow() ==> base == 0) && old(Tagged()) ==> Tagged()
      ensures old(IsDueNow() && base == 0) ==>
                Consistent(live) && View() == old(View()) && base == 0 && d.IsTight() && d.compactionCounter == 0
      ensures old(IsDueNow() && base != 0) ==> ShowsRoot(live, old(d.body))
      ensures forall g :: g in live && g != this ==> g.View() == old(g.View()) && g.Tagged() == old(g.Tagged())
    {
      hide ContentsAt, IsContainer, Handle.ShowsRoot, CanCompact, BlockFits;
      ContainerBlock(d.body, base, isObject);
      if IsDue(d.compactionCounter, Length(d.body[base..base + U32(d.body, base)])) {
        Compact(live);
      }
    }

    // -------------------------------------------------------------------
    // Removing
    // -------------------------------------------------------------------

    /** Number of items or members. */
    method Count() returns (n: nat)
      requires Valid()
      ensures View().Some? && n == if isObject then |View().value.members| else |View().value.items|
    {
      if d == null {
        return 0;
      }
      n := Length(d.body[base..base + U32(d.body, base)]);
    }

    lemma CountIs()
      requires Valid() && d != null
      ensures HasBlockAt(d.body, base) && View().Some?
      ensures Length(BlockAt(d.body, base)) == if isObject then |View().value.members| else |View().value.items|
    {
    }

    /** A removal that leaves `left` items or members makes a compaction due, which takes the handle to the root. */
    ghost predicate LosesPlace(left: nat)
      reads this, d
    {
      AloneInside() && IsDue(d.compactionCounter + 1, left)
    }

    /**
      The compaction that may follow the removal at `pos`, which leaves `left`, has a root it
      can work on: tagged as what the handle uses it as, and with offsets that fit. For a
      handle alone inside a container, that root is the one around the edit.
     */
    ghost predicate CanRemove(pos: nat, left: nat)
      reads this, d
    {
      if AloneInside() then
        IsDue(d.compactionCounter + 1, left) ==>
          && HasBlockAt(d.body, base) && HasSlot(BlockAt(d.body, base), pos)
          && CanCompact(WithoutItem(d.body, base, pos))
      else IsDue(Counter() + 1, left) ==> Sound()
    }

    /** `JsonArray::removeAt` */
    method RemoveAt(i: int, ghost live: set<Handle>)
      requires this in live && Consistent(live) && !isObject
      requires View().Some? && View().value.Arr? && 0 <= i < |View().value.items|
               ==> CanRemove(i, |View().value.items| - 1)
      modifies this, d
      ensures old(View()).Some? && old(View()).value.Arr?
      ensures var vs := old(View()).value.items;
              if 0 <= i < |vs| && old(LosesPlace(|vs| - 1)) then
                d == old(d) && ShowsRoot(live, old(WithoutItem(d.body, base, i)))
              else
                && Consistent(live) && (old(Tagged()) ==> Tagged())
                && View() == Some(Arr(if 0 <= i < |vs| then Removed(vs, i) else vs))
      ensures var vs := old(View()).value.items;
              old(d) != null && 0 <= i < |vs| && !old(LosesPlace(|vs| - 1)) ==>
                var c, n := old(if AloneInside() then d.compactionCounter else Counter()) + 1, |vs| - 1;
                && d != null
                && if c > 32 && c >= n / 2 then d.IsTight() && d.compactionCounter == 0 else d.compactionCounter == c
      ensures forall g :: g in live && g != this ==> g.View() == old(g.View()) && g.Tagged() == old(g.Tagged())
    {
      hide ContentsAt, IsContainer, Contents, Handle.ShowsRoot, CanCompact, BlockFits, WithoutItem;
      KindOfView();
      ghost var vs := View().value.items;
      var n := Count();
      if d == null || i < 0 || i >= n {
        return;
      }
      Detach(0, live);
      DropItem(i, vs, live);
      CompactIfDue(live);
    }

    /** `removeItems` and `++compactionCounter`, on the array where it lies. */
    method DropItem(i: nat, ghost vs: seq<Json>, ghost live: set<Handle>)
      requires this in live && Consistent(live) && d != null && d.ref == 1 && !isObject
      requires View() == Some(Arr(vs)) && i < |vs|
      modifies d
      ensures Consistent(live) && View() == Some(Arr(Removed(vs, i))) && d.ref == 1
      ensures HasBlockAt(old(d.body), base) && HasSlot(BlockAt(old(d.body), base), i)
      ensures d.body == WithoutItem(old(d.body), base, i) && d.compactionCounter == old(d.compactionCounter) + 1
      ensures HasBlockAt(d.body, base) && Length(BlockAt(d.body, base)) == |vs| - 1
      ensures (old(Sound()) ==> Sound()) && (old(Tagged()) ==> Tagged())
      ensures forall g :: g in live && g != this ==> g.View() == old(g.View()) && g.Tagged() == old(g.Tagged())
    {
      hide ContentsAt, Contents, BlockFits, WithoutItem;
      ItIsMine(live);
      d.ArrayRemoveAt(base, i, vs);
      CountIs();
    }

    lemma KindOfView()
      requires Valid()
      ensures View().Some? && (if isObject then View().value.Obj? else View().value.Arr?)
    {}

    /** `JsonObject::remove` */
    method Remove(key: Key, ghost live: set<Handle>)
      requires this in live && Consistent(live) && isObject
      requires View().Some? && View().value.Obj? && Present(Keys(View().value.members), key)
               ==> CanRemove(Rank(Keys(View().value.members), key), |View().value.members| - 1)
      modifies this, d
      ensures old(View()).Some? && old(View()).value.Obj?
      ensures var ms := old(View()).value.members;
              if Present(Keys(ms), key) && old(LosesPlace(|ms| - 1)) then
                d == old(d) && ShowsRoot(live, old(WithoutItem(d.body, base, Rank(Keys(ms), key))))
              else Consistent(live) && View() == Some(Obj(Without(ms, key))) && (old(Tagged()) ==> Tagged())
      ensures var ms := old(View()).value.members;
              old(d) != null && Present(Keys(ms), key) && !old(LosesPlace(|ms| - 1)) ==>
                var c, n := old(if AloneInside() then d.compactionCounter else Counter()) + 1, |ms| - 1;
                && d != null
                && if c > 32 && c >= n / 2 then d.IsTight() && d.compactionCounter == 0 else d.compactionCounter == c
      ensures forall g :: g in live && g != this ==> g.View() == old(g.View()) && g.Tagged() == old(g.Tagged())
    {
      hide ContentsAt, IsContainer, Contents, Handle.ShowsRoot, CanCompact, BlockFits, WithoutItem;
      KindOfView();
      ghost var ms := View().value.members;
      NothingToRemove(ms, key);
      if d == null {
        return;
      }
      ViewedBlock();
      var index, keyExists := IndexOf(d.body[base..base + U32(d.body, base)], ms, key);
      if !keyExists {
        return;
      }
      Detach(0, live);
      DropMember(index, key, ms, live);
      CompactIfDue(live);
    }

    /** `removeItems` and `++compactionCounter`, on the object where it lies. */
    method DropMember(pos: nat, ghost key: Key, ghost ms: seq<Member>, ghost live: set<Handle>)
      requires this in live && Consistent(live) && d != null && d.ref == 1 && isObject
      requires View() == Some(Obj(ms)) && Present(Keys(ms), key) && pos == Rank(Keys(ms), key)
      modifies d
      ensures Consistent(live) && View() == Some(Obj(Without(ms, key))) && d.ref == 1
      ensures HasBlockAt(old(d.body), base) && HasSlot(BlockAt(old(d.body), base), pos)
      ensures d.body == WithoutItem(old(d.body), base, pos) && d.compactionCounter == old(d.compactionCounter) + 1
      ensures HasBlockAt(d.body, base) && Length(BlockAt(d.body, base)) == |ms| - 1
      ensures (old(Sound()) ==> Sound()) && (old(Tagged()) ==> Tagged())
      ensures forall g :: g in live && g != this ==> g.View() == old(g.View()) && g.Tagged() == old(g.Tagged())
    {
      hide ContentsAt, Contents, BlockFits, WithoutItem, Rank, Present;
      ItIsMine(live);
      OneLess(ms, key);
      d.ObjectRemoveAt(base, pos, key, ms);
      CountIs();
    }

    lemma ViewedBlock()
      requires Valid() && d != null
      ensures HasBlockAt(d.body, base) && View() == Contents(d.body[base..base + U32(d.body, base)], isObject)
    {}

    // -------------------------------------------------------------------
    // Values inside
    // -------------------------------------------------------------------

    /** A handle on a container inside `parent`, at offset `off`, on the same buffer. */
    constructor Inside(parent: Handle, off: nat, isObject: bool, ghost live: set<Handle>)
      requires parent in live && Consistent(live) && parent.d != null
      requires IsContainer(parent.d.body, parent.base + off, isObject)
      modifies parent.d
      ensures Consistent(live + {this}) && fresh(this)
      ensures d == parent.d && d.ref == old(parent.d.ref) + 1
      ensures View() == old(ContentsAt(parent.d.body, parent.base + off, isObject))
      ensures d.body == old(parent.d.body) && d.compactionCounter == old(parent.d.compactionCounter)
      ensures forall g :: g in live ==> g.View() == old(g.View()) && g.Tagged() == old(g.Tagged())
    {
      hide IsContainer, ContentsAt;
      d := parent.d;
      base := parent.base + off;
      this.isObject := isObject;
      new;
      GainsOne(live, this, d);
      d.ref := d.ref + 1;
      forall h | h in live && h.d != null && h.d != d
        ensures Sharers(live + {this}, h.d) == Sharers(live, h.d)
      {
        SameSharers(live, this, h.d);
      }
    }

    /**
      The value a word of the container refers to, as `JsonValue` is made from it. A
      container comes with a handle of its own on the shared buffer.
     */
    method ValueOf(w: word, ghost v: Json, ghost live: set<Handle>) returns (item: Json, h: Handle?)
      requires this in live && Consistent(live) && d != null
      requires HasBlockAt(d.body, base) && Stands(BlockAt(d.body, base), w, v)
      modifies d
      ensures item == v && (h != null <==> v.Arr? || v.Obj?)
      ensures h != null ==> fresh(h) && h.d == d && h.View() == Some(v)
      ensures Consistent(live + if h == null then {} else {h})
      ensures d.ref >= old(d.ref) && d.body == old(d.body) && d.compactionCounter == old(d.compactionCounter)
      ensures h != null ==> d.ref > old(d.ref)
      ensures h == null ==> d.ref == old(d.ref)
      ensures forall g :: g in live ==> g.View() == old(g.View()) && g.Tagged() == old(g.Tagged())
    {
      hide ContentsAt, IsContainer, Contents, Split, ValueAt, Stands;
      var b := d.body[base..base + U32(d.body, base)];
      item := ValueOfWord(b, w, v);
      KindOfValue(b, w, v);
      if TypeField(w) == T_ARRAY || TypeField(w) == T_OBJECT {
        NestedInBlock(b, w, v);
        ContainerBlock(d.body, base, isObject);
        NestedContainer(d.body, base, ValueField(w), v);
        h := new Handle.Inside(this, ValueField(w), TypeField(w) == T_OBJECT, live);
      } else {
        h := null;
        assert live + {} == live;
      }
    }

    /** `JsonArray::takeAt`; the item is absent when there is none at `i`. */
    method TakeAt(i: int, ghost live: set<Handle>) returns (item: Option<Json>, h: Handle?)
      requires this in live && Consistent(live) && !isObject
      requires View().Some? && View().value.Arr? && 0 <= i < |View().value.items|
               ==> CanRemove(i, |View().value.items| - 1)
      modifies this, d
      ensures old(View()).Some? && old(View()).value.Arr?
      ensures var vs := old(View()).value.items;
              if 0 <= i < |vs| then
                && item == Some(vs[i]) && (vs[i].Arr? || vs[i].Obj? <==> h != null)
                && (h != null ==> fresh(h) && h.View() == Some(vs[i]))
                && (if h == null && old(LosesPlace(|vs| - 1)) then
                      d == old(d) && ShowsRoot(live, old(WithoutItem(d.body, base, i)))
                    else
                      && Consistent(live + if h == null then {} else {h}) && View() == Some(Arr(Removed(vs, i)))
                      && (old(Tagged()) ==> Tagged()))
              else item == None && h == null && Consistent(live) && View() == old(View()) && Tagged() == old(Tagged())
      ensures forall g :: g in live && g != this ==> g.View() == old(g.View()) && g.Tagged() == old(g.Tagged())
    {
      hide ContentsAt, IsContainer, Contents, Stands, Handle.ShowsRoot, CanCompact, BlockFits, WithoutItem,
          Handle.Tagged, Handle.Sound;
      KindOfView();
      ghost var vs := View().value.items;
      var n := Count();
      assert live + {} == live;
      if d == null || i < 0 || i >= n {
        return None, null;
      }
      ViewedBlock();
      ItemWord(d.body[base..base + U32(d.body, base)], vs, i);
      var v;
      v, h := ValueOf(TableWord(d.body[base..base + U32(d.body, base)], i), vs[i], live);
      item := Some(v);
      RemoveAt(i, live + if h == null then {} else {h});
    }

    /** `JsonObject::take`; the value is absent when the key is. */
    method Take(key: Key, ghost live: set<Handle>) returns (item: Option<Json>, h: Handle?)
      requires this in live && Consistent(live) && isObject
      requires View().Some? && View().value.Obj? && Present(Keys(View().value.members), key)
               ==> CanRemove(Rank(Keys(View().value.members), key), |View().value.members| - 1)
      modifies this, d
      ensures old(View()).Some? && old(View()).value.Obj?
      ensures var ms := old(View()).value.members;
              if Present(Keys(ms), key) then
                var v := ms[Rank(Keys(ms), key)].1;
                && item == Some(v) && (v.Arr? || v.Obj? <==> h != null)
                && (h != null ==> fresh(h) && h.View() == Some(v))
                && (if h == null && old(LosesPlace(|ms| - 1)) then
                      d == old(d) && ShowsRoot(live, old(WithoutItem(d.body, base, Rank(Keys(ms), key))))
                    else
                      && Consistent(live + if h == null then {} else {h}) && View() == Some(Obj(Without(ms, key)))
                      && (old(Tagged()) ==> Tagged()))
              else item == None && h == null && Consistent(live) && View() == old(View()) && Tagged() == old(Tagged())
      ensures forall g :: g in live && g != this ==> g.View() == old(g.View()) && g.Tagged() == old(g.Tagged())
    {
      hide ContentsAt, IsContainer, Contents, Stands, Handle.ShowsRoot, CanCompact, BlockFits, WithoutItem,
          Handle.Tagged, Handle.Sound;
      KindOfView();
      ghost var ms := View().value.members;
      NothingToRemove(ms, key);
      assert live + {} == live;
      if d == null {
        return None, null;
      }
      ViewedBlock();
      var index, keyExists := IndexOf(d.body[base..base + U32(d.body, base)], ms, key);
      if !keyExists {
        return None, null;
      }
      var v;
      v, h := MemberAt(index, ms, live);
      item := Some(v);
      Remove(key, live + if h == null then {} else {h});
    }

    /** The value of a member. */
    method MemberAt(index: nat, ghost ms: seq<Member>, ghost live: set<Handle>) returns (v: Json, h: Handle?)
      requires this in live && Consistent(live) && isObject && d != null && View() == Some(Obj(ms)) && index < |ms|
      modifies d
      ensures v == ms[index].1 && (h != null <==> v.Arr? || v.Obj?)
      ensures h != null ==> fresh(h) && h.d == d && h.View() == Some(v)
      ensures Consistent(live + if h == null then {} else {h})
      ensures d.body == old(d.body) && d.compactionCounter == old(d.compactionCounter)
      ensures if h == null then d.ref == old(d.ref) else d.ref > old(d.ref)
      ensures forall g :: g in live ==> g.View() == old(g.View()) && g.Tagged() == old(g.Tagged())
    {
      hide ContentsAt, IsContainer, Contents, Stands, Handle.Tagged;
      ViewedBlock();
      MemberWord(d.body[base..base + U32(d.body, base)], ms, index);
      var b := d.body[base..base + U32(d.body, base)];
      v, h := ValueOf(U32(b, TableWord(b, index)), ms[index].1, live);
    }

    // -------------------------------------------------------------------
    // Storing
    // -------------------------------------------------------------------

    /** The value about to be stored, with a handle of its own on the container it holds. */
    method ToStore(v: JsonValue, ghost live: set<Handle>) returns (s: Stored, val: Handle?)
      requires this in live && Consistent(live) && v.IsStorable(live)
      modifies v.Buffer()
      ensures Storable(s) && Meaning(s) == old(v.Value()) && (s.Text? ==> |s.s| < 0x8000_0000)
      ensures RequiredStorage(s) <= old(v.Storage())
      ensures v.Scalar? ==> val == null && s == v.s && (d != null ==> d.ref == old(d.ref))
      ensures v.Holding? ==> RequiredStorage(s) >= HEADER
      ensures v.Holding? ==> val != null && fresh(val) && (val.d == v.h.d || (val.d != null && fresh(val.d)))
      ensures Consistent(live + if val == null then {} else {val})
      ensures d != null ==> d.body == old(d.body) && d.ref >= old(d.ref)
      ensures d != null ==> d.compactionCounter == old(d.compactionCounter)
      ensures forall g :: g in live ==> g.View() == old(g.View()) && g.Tagged() == old(g.Tagged())
    {
      hide ContentsAt, IsContainer, Contents;
      if v.Scalar? {
        assert live + {} == live;
        return v.s, null;
      }
      var x := v.h.CompactedCopy(live);
      val := x;
      s := x.AsStored();
    }

    /** The compaction that storing a container starts with, if there is garbage, keeps its value. */
    ghost predicate CanBeStored()
      reads this, d
    {
      Counter() != 0 ==> Sound()
    }

    /** A second handle on the same container; on a compacted copy of it if there was garbage. */
    method CompactedCopy(ghost live: set<Handle>) returns (x: Handle)
      requires this in live && Consistent(live) && CanBeStored()
      modifies d
      ensures fresh(x) && Consistent(live + {x}) && x.View() == old(View()) && x.isObject == isObject
      ensures x.d == d || (x.d != null && fresh(x.d))
      ensures x.BlockSize() <= old(BlockSize()) && (x.d == null <==> d == null)
      ensures d != null ==> d.body == old(d.body) && d.ref >= old(d.ref)
      ensures d != null ==> d.compactionCounter == old(d.compactionCounter)
      ensures forall g :: g in live ==> g.View() == old(g.View()) && g.Tagged() == old(g.Tagged())
    {
      hide ContentsAt, IsContainer, Contents;
      x := new Handle.Copy(this, live);
      ghost var all := live + {x};
      if x.d != null && x.d.compactionCounter != 0 {
        x.SharedByTwo(all, this);
        x.Detach(0, all);
        x.CompactOwned(all);
      }
    }

    method AsStored() returns (s: Stored)
      requires Valid()
      ensures s.Container? && Storable(s)
      ensures View() == Some(Meaning(s)) && RequiredStorage(s) == BlockSize() >= HEADER
    {
      hide Contents;
      if d == null {
        s := Container(isObject, None);
      } else {
        s := Container(isObject, Some(d.body[base..base + U32(d.body, base)]));
      }
    }

    /** The end of an insertion: the temporary handle goes. */
    method Done(val: Handle?, ghost live: set<Handle>)
      requires this in live && val !in live && Consistent(live + if val == null then {} else {val})
      modifies if val == null then null else val.d
      ensures Consistent(live) && View() == old(View()) && (old(Tagged()) ==> Tagged())
      ensures forall g :: g in live && g != this ==> g.View() == old(g.View()) && g.Tagged() == old(g.Tagged())
    {
      hide ContentsAt, IsContainer;
      if val == null {
        assert live + {} == live;
      } else {
        assert live + {val} - {val} == live;
        val.Destroy(live + {val});
      }
    }

    /** `JsonArray::insert`, for a value that is ready to be stored. */
    method InsertItem(i: nat, s: Stored, ghost live: set<Handle>)
      requires this in live && Consistent(live) && !isObject && View().Some? && View().value.Arr?
          && i <= |View().value.items|
      requires Storable(s) && (s.Text? ==> |s.s| < 0x8000_0000)
      modifies this, d
      ensures Consistent(live) && (old(Tagged()) ==> Tagged())
      ensures var r := Some(Arr(Inserted(old(View()).value.items, i, Meaning(s))));
              View() == if old(BlockSize()) + RequiredStorage(s) < MAX_SIZE then r else old(View())
      ensures d != null && d.ref == 1 && base == 0 && d.compactionCounter == old(Counter())
      ensures d == old(d) || fresh(d)
      ensures old(Tagged()) && old(BlockSize()) + RequiredStorage(s) < MAX_SIZE ==> Sound()
      ensures forall g :: g in live && g != this ==> g.View() == old(g.View()) && g.Tagged() == old(g.Tagged())
    {
      hide ContentsAt, IsContainer, Contents, RequiredStorage, Meaning, Storable, BlockFits;
      ghost var vs := View().value.items;
      Detach(RequiredStorage(s) + 4, live);
      AddItem(i, s, vs, live);
    }

    /** The edit itself, on the root. */
    method AddItem(i: nat, s: Stored, ghost vs: seq<Json>, ghost live: set<Handle>)
      requires this in live && Consistent(live) && d != null && d.ref == 1 && !isObject && base == 0
      requires View() == Some(Arr(vs)) && i <= |vs| && Storable(s) && (s.Text? ==> |s.s| < 0x8000_0000)
      requires HasBlockAt(d.body, base) && U32(d.body, base) + RequiredStorage(s) + 4 <= |d.body|
      modifies d
      ensures Consistent(live) && (old(Tagged()) ==> Tagged())
      ensures d.ref == 1 && d.compactionCounter == old(d.compactionCounter)
      ensures old(Tagged()) && U32(old(d.body), base) + RequiredStorage(s) < MAX_SIZE ==> Sound()
      ensures View() == Some(Arr(if U32(old(d.body), base) + RequiredStorage(s) < MAX_SIZE
                                 then Inserted(vs, i, Meaning(s)) else vs))
      ensures forall g :: g in live && g != this ==> g.View() == old(g.View()) && g.Tagged() == old(g.Tagged())
    {
      hide ContentsAt, Contents, RequiredStorage, Meaning, Storable, BlockFits;
      OwnedRoot(live);
      SoleRoot();
      var stored := d.ArrayInsert(i, s, vs);
      OwnedView(live);
      SoleRoot();
      if stored && Tagged() {
        SmallIsSound();
      }
    }

    /**
      The compaction that may follow a replacement among `n` items finds the right tag. A
      handle alone inside a container stays there when the new value needs no storage, and
      then none may be due.
     */
    ghost predicate CanReplace(n: nat, size: nat)
      reads this, d
    {
      if AloneInside() && size == 0 then !IsDue(d.compactionCounter + 1, n)
      else IsDue(Counter() + 1, n) ==> Tagged()
    }

    /** `JsonArray::replace`, for a value that is ready to be stored. */
    method ReplaceItem(i: nat, s: Stored, ghost live: set<Handle>)
      requires this in live && Consistent(live) && !isObject && View().Some? && View().value.Arr?
          && i < |View().value.items|
      requires Storable(s) && (s.Text? ==> |s.s| < 0x8000_0000)
      requires CanReplace(|View().value.items|, RequiredStorage(s))
      modifies this, d
      ensures Consistent(live) && (old(Tagged()) ==> Tagged())
      ensures var r := Some(Arr(old(View()).value.items[i := Meaning(s)]));
              View() == if old(BlockSize()) + RequiredStorage(s) < MAX_SIZE then r else old(View())
      ensures old(BlockSize()) + RequiredStorage(s) < MAX_SIZE ==>
                var inside := old(AloneInside()) && RequiredStorage(s) == 0;
                var garbage := if inside then old(if d == null then 0 else d.compactionCounter) else old(Counter());
                var c, n := garbage + 1, |old(View()).value.items|;
                && d != null
                && if c > 32 && c >= n / 2 then d.IsTight() && d.compactionCounter == 0 else d.compactionCounter == c
      ensures forall g :: g in live && g != this ==> g.View() == old(g.View()) && g.Tagged() == old(g.Tagged())
    {
      hide ContentsAt, IsContainer, Contents, RequiredStorage, Meaning, Storable, BlockFits;
      ghost var vs := View().value.items;
      Detach(RequiredStorage(s), live);
      var stored := PutItem(i, s, vs, live);
      if stored {
        CompactIfDue(live);
      }
    }

    /** The edit itself, on the array where it lies. */
    method PutItem(i: nat, s: Stored, ghost vs: seq<Json>, ghost live: set<Handle>) returns (stored: bool)
      requires this in live && Consistent(live) && d != null && d.ref == 1 && !isObject
      requires View() == Some(Arr(vs)) && i < |vs|
      requires Storable(s) && (s.Text? ==> |s.s| < 0x8000_0000)
      requires HasBlockAt(d.body, base) && U32(d.body, base) + RequiredStorage(s) <= |d.body|
      requires base > 0 ==> RequiredStorage(s) == 0
      modifies d
      ensures Consistent(live) && d.ref == 1 && (old(Tagged()) ==> Tagged())
      ensures stored == (U32(old(d.body), base) + RequiredStorage(s) < MAX_SIZE)
      ensures View() == Some(Arr(if stored then vs[i := Meaning(s)] else vs))
      ensures HasBlockAt(d.body, base) && Length(BlockAt(d.body, base)) == |vs|
      ensures d.compactionCounter == old(d.compactionCounter) + if stored then 1 else 0
      ensures old(Tagged()) && base == 0 && stored ==> Sound()
      ensures forall g :: g in live && g != this ==> g.View() == old(g.View()) && g.Tagged() == old(g.Tagged())
    {
      hide ContentsAt, Contents, RequiredStorage, Meaning, Storable, BlockFits;
      ItIsMine(live);
      stored := d.ArrayReplaceAt(base, i, s, vs);
      if stored {
        d.compactionCounter := d.compactionCounter + 1;
      }
      CountIs();
      if base == 0 && stored && Tagged() {
        SmallIsSound();
      }
    }

    /** Up to the size limit of edits, the right tag is all that compaction asks for. */
    lemma SmallIsSound()
      requires Valid() && d != null && base == 0 && Tagged() && U32(d.body, 0) <= MAX_SIZE + 4
      ensures Sound()
    {
      hide Contents, BlockFits;
      SoleRoot();
      d.TaggedRoot(isObject);
      d.SmallRootFits();
    }

    /** The compaction that may follow an insertion finds the right tag. */
    ghost predicate CanInsert(ms: seq<Member>, key: Key)
      reads this, d
    {
      var known := Present(Keys(ms), key);
      IsDue(if known then Counter() + 1 else Counter(), if known then |ms| else |ms| + 1) ==> Tagged()
    }

    /** `JsonObject::insert`, for a value that is ready to be stored. */
    method InsertMember(key: Key, s: Stored, ghost live: set<Handle>)
      requires this in live && Consistent(live) && isObject && View().Some? && View().value.Obj? && |key| < 0x8000_0000
      requires Storable(s) && (s.Text? ==> |s.s| < 0x8000_0000)
      requires CanInsert(View().value.members, key)
      modifies this, d
      ensures Consistent(live) && (old(Tagged()) ==> Tagged())
      ensures var r := Some(Obj(Put(old(View()).value.members, key, Meaning(s))));
              View() == if old(BlockSize()) + KeySize(key) + RequiredStorage(s) < MAX_SIZE then r else old(View())
      ensures old(BlockSize()) + KeySize(key) + RequiredStorage(s) < MAX_SIZE ==>
                var ms := old(View()).value.members;
                var known := Present(Keys(ms), key);
                var c, n := old(Counter()) + (if known then 1 else 0), if known then |ms| else |ms| + 1;
                && d != null
                && if c > 32 && c >= n / 2 then d.IsTight() && d.compactionCounter == 0 else d.compactionCounter == c
      ensures forall g :: g in live && g != this ==> g.View() == old(g.View()) && g.Tagged() == old(g.Tagged())
    {
      hide ContentsAt, IsContainer, Contents, RequiredStorage, Meaning, Storable, BlockFits, Present, Put, KeySize;
      ghost var ms := View().value.members;
      Detach(KeySize(key) + RequiredStorage(s) + 4, live);
      var stored := PutMember(key, s, ms, live);
      if stored {
        CompactIfDue(live);
      }
    }

    /** The edit itself, on the root. */
    method PutMember(key: Key, s: Stored, ghost ms: seq<Member>, ghost live: set<Handle>) returns (stored: bool)
      requires this in live && Consistent(live) && d != null && d.ref == 1 && isObject && base == 0
      requires View() == Some(Obj(ms)) && |key| < 0x8000_0000
      requires Storable(s) && (s.Text? ==> |s.s| < 0x8000_0000)
      requires HasBlockAt(d.body, base) && U32(d.body, base) + KeySize(key) + RequiredStorage(s) + 4 <= |d.body|
      modifies d
      ensures Consistent(live) && d.ref == 1 && (old(Tagged()) ==> Tagged())
      ensures stored == (U32(old(d.body), base) + KeySize(key) + RequiredStorage(s) < MAX_SIZE)
      ensures View() == Some(Obj(if stored then Put(ms, key, Meaning(s)) else ms))
      ensures HasBlockAt(d.body, base)
      ensures stored ==> Length(BlockAt(d.body, base)) == if Present(Keys(ms), key) then |ms| else |ms| + 1
      ensures d.compactionCounter == old(d.compactionCounter) + if Present(Keys(ms), key) then 1 else 0
      ensures old(Tagged()) && stored ==> Sound()
      ensures forall g :: g in live && g != this ==> g.View() == old(g.View()) && g.Tagged() == old(g.Tagged())
    {
      hide ContentsAt, Contents, RequiredStorage, Meaning, Storable, BlockFits, Present, Put, KeySize;
      ItIsMine(live);
      OwnedRoot(live);
      SoleRoot();
      stored := d.ObjectInsert(key, s, ms);
      OwnedView(live);
      CountIs();
      PutCount(ms, key, Meaning(s));
      SoleRoot();
      if stored && Tagged() {
        SmallIsSound();
      }
    }

    /** `JsonArray::insert` */
    method ArrayInsert(i: nat, v: JsonValue, ghost live: set<Handle>)
      requires this in live && Consistent(live) && !isObject && v.IsStorable(live)
      requires v.Holding? ==> v.h != this
      requires View().Some? && View().value.Arr? && i <= |View().value.items|
      modifies this, d, v.Buffer()
      ensures Consistent(live) && (old(Tagged()) ==> Tagged())
      ensures var r := Some(Arr(Inserted(old(View()).value.items, i, old(v.Value()))));
              && (View() == r || View() == old(View()))
              && (old(BlockSize()) + old(v.Storage()) < MAX_SIZE ==> View() == r)
      ensures v.Scalar? && old(BlockSize()) + RequiredStorage(v.s) < MAX_SIZE ==>
                var vs := old(View()).value.items;
                && (v.s.Nothing? ==> View() == Some(Arr(Inserted(vs, i, Null))))
                && (v.s.Truth? ==> View() == Some(Arr(Inserted(vs, i, Bool(v.s.b)))))
                && (v.s.Text? ==> View() == Some(Arr(Inserted(vs, i, Str(v.s.s)))))
                && (v.s.Real? ==> View() == Some(Arr(Inserted(vs, i, Num(Canonical(v.s.bits))))))
      ensures forall g :: g in live && g != this ==> g.View() == old(g.View()) && g.Tagged() == old(g.Tagged())
    {
      hide ContentsAt, IsContainer, Contents;
      var s, val := ToStore(v, live);
      InsertItem(i, s, live + if val == null then {} else {val});
      Done(val, live);
    }

    /** `JsonArray::replace` */
    method ArrayReplace(i: nat, v: JsonValue, ghost live: set<Handle>)
      requires this in live && Consistent(live) && !isObject && v.IsStorable(live)
      requires v.Holding? ==> v.h != this
      requires View().Some? && View().value.Arr? && i < |View().value.items|
      requires CanReplace(|View().value.items|, if v.Scalar? then RequiredStorage(v.s) else HEADER)
      modifies this, d, v.Buffer()
      ensures Consistent(live) && (old(Tagged()) ==> Tagged())
      ensures var r := Some(Arr(old(View()).value.items[i := old(v.Value())]));
              && (View() == r || View() == old(View()))
              && (old(BlockSize()) + old(v.Storage()) < MAX_SIZE ==> View() == r)
      ensures v.Scalar? && old(BlockSize()) + RequiredStorage(v.s) < MAX_SIZE ==>
                var vs := old(View()).value.items;
                && (v.s.Nothing? ==> View() == Some(Arr(vs[i := Null])))
                && (v.s.Truth? ==> View() == Some(Arr(vs[i := Bool(v.s.b)])))
                && (v.s.Text? ==> View() == Some(Arr(vs[i := Str(v.s.s)])))
                && (v.s.Real? ==> View() == Some(Arr(vs[i := Num(Canonical(v.s.bits))])))
      ensures forall g :: g in live && g != this ==> g.View() == old(g.View()) && g.Tagged() == old(g.Tagged())
    {
      hide ContentsAt, IsContainer, Contents, BlockFits;
      var s, val := ToStore(v, live);
      ReplaceItem(i, s, live + if val == null then {} else {val});
      Done(val, live);
    }

    /** `JsonObject::insert`; inserting `Undefined` removes the key. */
    method ObjectInsert(key: Key, v: JsonValue, ghost live: set<Handle>)
      requires this in live && Consistent(live) && isObject && v.IsStorable(live) && |key| < 0x8000_0000
      requires v.Holding? ==> v.h != this
      requires View().Some? && View().value.Obj?
      requires v != Scalar(Undefined) ==> CanInsert(View().value.members, key)
      requires v == Scalar(Undefined) && Present(Keys(View().value.members), key)
               ==> CanRemove(Rank(Keys(View().value.members), key), |View().value.members| - 1)
      modifies this, d, v.Buffer()
      ensures var ms := old(View()).value.members;
              if v == Scalar(Undefined) then
                if Present(Keys(ms), key) && old(LosesPlace(|ms| - 1)) then
                  d == old(d) && ShowsRoot(live, old(WithoutItem(d.body, base, Rank(Keys(ms), key))))
                else Consistent(live) && View() == Some(Obj(Without(ms, key))) && (old(Tagged()) ==> Tagged())
              else
                && Consistent(live) && (old(Tagged()) ==> Tagged())
                && (View() == Some(Obj(Put(ms, key, old(v.Value())))) || View() == old(View()))
                && (old(BlockSize()) + KeySize(key) + old(v.Storage()) < MAX_SIZE ==>
                      View() == Some(Obj(Put(ms, key, old(v.Value())))))
      ensures v.Scalar? && old(BlockSize()) + KeySize(key) + RequiredStorage(v.s) < MAX_SIZE ==>
                var ms := old(View()).value.members;
                && (v.s.Nothing? ==> View() == Some(Obj(Put(ms, key, Null))))
                && (v.s.Truth? ==> View() == Some(Obj(Put(ms, key, Bool(v.s.b)))))
                && (v.s.Text? ==> View() == Some(Obj(Put(ms, key, Str(v.s.s)))))
                && (v.s.Real? ==> View() == Some(Obj(Put(ms, key, Num(Canonical(v.s.bits))))))
      ensures forall g :: g in live && g != this ==> g.View() == old(g.View()) && g.Tagged() == old(g.Tagged())
    {
      hide ContentsAt, IsContainer, Contents, Handle.ShowsRoot, CanCompact, BlockFits, WithoutItem;
      if v == Scalar(Undefined) {
        Remove(key, live);
        return;
      }
      var s, val := ToStore(v, live);
      InsertMember(key, s, live + if val == null then {} else {val});
      Done(val, live);
    }

    /**
      A scalar inserted into an array and taken out again: it is the one that was inserted,
      and the array is what it was.
     */
    method InsertThenTake(i: nat, s: Stored, ghost v: Json, ghost live: set<Handle>)
      returns (item: Option<Json>, h: Handle?)
      requires this in live && Consistent(live) && !isObject && View().Some? && View().value.Arr?
          && i <= |View().value.items|
      requires match v
               case Null => s == Nothing || s == Undefined
               case Bool(b) => s == Truth(b)
               case Num(n) => s.Real? && n == Canonical(s.bits)
               case Str(x) => s == Text(x) && |x| < 0x8000_0000
               case _ => false
      requires Tagged() && BlockSize() + RequiredStorage(s) < MAX_SIZE
      modifies this, d
      ensures item == Some(v) && h == null
      ensures Consistent(live) && View() == old(View()) && Tagged()
      ensures forall g :: g in live && g != this ==> g.View() == old(g.View()) && g.Tagged() == old(g.Tagged())
    {
      hide ContentsAt, IsContainer, Contents, RequiredStorage, Storable, Meaning, Canonical, BlockFits, Handle.Sound,
          Handle.Tagged, Handle.ShowsRoot, Handle.AloneInside, Handle.LosesPlace, Handle.CanRemove, Handle.View,
          WithoutItem;
      ghost var vs := View().value.items;
      ScalarIsStorable(s, v);
      InsertItem(i, s, live);
      InsertedAndRemoved(vs, i, v);
      AtRootNow();
      item, h := TakeAt(i, live);
      assert live + {} == live;
    }

    lemma AtRootNow()
      requires d != null && base == 0 && Sound()
      ensures forall pos, left :: CanRemove(pos, left) && !LosesPlace(left)
    {
      hide Handle.Sound;
    }
  }

  /** A `JsonValue` handed to an insertion: a plain value, or one that holds a container. */
  datatype JsonValue = Scalar(s: Stored) | Holding(h: Handle) {

    /** The caller's obligations: nothing absurdly long, and no garbage that cannot be compacted. */
    ghost predicate IsStorable(live: set<Handle>)
      reads if Holding? then {h} else {}, if Holding? then {h.d} else {}
    {
      match this
      case Scalar(s) => !s.Container? && (s.Text? ==> |s.s| < 0x8000_0000)
      case Holding(h) => h in live && h.CanBeStored()
    }

    ghost function Buffer(): Data?
      reads if Holding? then {h} else {}
    {
      if Holding? then h.d else null
    }

    ghost function Value(): Json
      requires Scalar? ==> !s.Container?
      requires Holding? ==> h.View().Some?
      reads if Holding? then {h} else {}, if Holding? then {h.d} else {}
    {
      if Scalar? then Meaning(s) else h.View().value
    }

    /** An upper bound for the storage needed; compaction may make it less. */
    ghost function Storage(): nat
      requires Holding? ==> h.Valid()
      reads if Holding? then {h} else {}, if Holding? then {h.d} else {}
    {
      if Scalar? then RequiredStorage(s) else h.BlockSize()
    }
  }

  /** `JsonValue` from a value word. */
  function ValueOfWord(b: Bytes, w: word, ghost v: Json): (item: Json)
    requires Stands(b, w, v)
    ensures item == v
  {
    ValueAt(Split(b).value.data, w).value
  }

  lemma NestedContainer(m: Bytes, base: nat, off: nat, v: Json)
    requires HasBlockAt(m, base) && U32(m, base) <= SIZE_LIMIT
    requires var b := BlockAt(m, base);
             off + 4 <= |b| && off + U32(b, off) <= |b| && Contents(b[off..off + U32(b, off)], v.Obj?) == Some(v)
    ensures ContentsAt(m, base + off, v.Obj?) == Some(v) && IsContainer(m, base + off, v.Obj?)
  {
    hide Contents;
    var b := BlockAt(m, base);
    var n := U32(b, off);
    BlockSizeAligned(b[off..off + n], v.Obj?);
    SliceOfSlice(m, base, base + |b|, off, off + 4);
    U32Moved(m, base + off, b, off);
    SliceOfSlice(m, base, base + |b|, off, off + n);
  }

  lemma ScalarIsStorable(s: Stored, v: Json)
    requires match v
             case Null => s == Nothing || s == Undefined
             case Bool(b) => s == Truth(b)
             case Num(n) => s.Real? && n == Canonical(s.bits)
             case Str(x) => s == Text(x) && |x| < 0x8000_0000
             case _ => false
    ensures Storable(s) && Meaning(s) == v && !v.Arr? && !v.Obj? && (s.Text? ==> |s.s| < 0x8000_0000)
  {}

  lemma InsertedAndRemoved(vs: seq<Json>, i: nat, v: Json)
    requires i <= |vs|
    ensures Removed(Inserted(vs, i, v), i) == vs
  {}

  lemma NothingToRemove(ms: seq<Member>, key: Key)
    ensures !Present(Keys(ms), key) ==> Without(ms, key) == ms
    ensures !Present(Keys([]), key)
  {}

  lemma OneLess(ms: seq<Member>, key: Key)
    requires Present(Keys(ms), key)
    ensures |Without(ms, key)| == |ms| - 1
  {}

  lemma PutCount(ms: seq<Member>, key: Key, v: Json)
    ensures |Put(ms, key, v)| == if Present(Keys(ms), key) then |ms| else |ms| + 1
  {}

  lemma Subset<T>(a: set<T>, b: set<T>)
    requires a <= b
    ensures |a| <= |b|
  {
    if a != {} {
      var x :| x in a;
      Subset(a - {x}, b - {x});
    }
  }

  lemma FreshIsUnshared(live: set<Handle>, x: Data)
    requires forall h :: h in live ==> h.d != x
    ensures |Sharers(live, x)| == 0
  {
    assert Sharers(live, x) == {};
  }

  lemma ContainerBlock(m: Bytes, base: nat, isObject: bool)
    requires IsContainer(m, base, isObject)
    ensures HasBlockAt(m, base) && U32(m, base) <= SIZE_LIMIT
  {}

  lemma RootContainer(x: Data, isObject: bool)
    requires x.RootDoc().Some? && (x.RootDoc().value.Obj? <==> isObject) && Size(x.body) <= SIZE_LIMIT
    ensures IsContainer(x.body, 0, isObject) && ContentsAt(x.body, 0, isObject) == x.RootDoc()
    ensures IsObject(BlockAt(x.body, 0)) == isObject
  {
    hide Contents;
    x.RootTagged();
    assert x.body[0..Size(x.body)] == x.body[..Size(x.body)];
  }

  lemma NewContainer(x: Data, isObject: bool)
    requires x.RootDoc() == Some(Empty(isObject)) && Size(x.body) == HEADER
    ensures IsContainer(x.body, 0, isObject) && ContentsAt(x.body, 0, isObject) == Some(Empty(isObject))
    ensures IsObject(BlockAt(x.body, 0)) == isObject && BlockFits(BlockAt(x.body, 0))
  {
    hide Contents, BlockFits;
    RootContainer(x, isObject);
    x.SmallRootFits();
    x.RootIsBlock();
  }

  /** A copied block stands for the same value. */
  lemma SameContainer(m: Bytes, base: nat, r: Bytes, isObject: bool)
    requires IsContainer(m, base, isObject) && U32(m, base) <= |r|
    requires r[..U32(m, base)] == m[base..base + U32(m, base)]
    ensures IsContainer(r, 0, isObject) && ContentsAt(r, 0, isObject) == ContentsAt(m, base, isObject)
    ensures HasBlockAt(m, base) && HasBlockAt(r, 0) && BlockAt(r, 0) == BlockAt(m, base)
  {
    hide Contents;
    var n := U32(m, base);
    SliceOfSlice(m, base, base + n, 0, 4);
    SliceOfSlice(r, 0, n, 0, 4);
    assert r[0..n] == r[..n];
    U32Moved(r, 0, m, base);
  }

  lemma CompactableRoot(x: Data)
    requires CanCompact(x.body)
    ensures x.HasRoot() && x.RootDoc().Some? && x.RootDoc() == Doc(BlockAt(x.body, 0)) && HasBlockAt(x.body, 0)
    ensures Size(x.body) <= SIZE_LIMIT < 0x8000_0000
    ensures x.RootFits() <==> BlockFits(BlockAt(x.body, 0))
    ensures IsObject(BlockAt(x.body, 0)) == IsObject(x.body)
  {
    hide Doc, BlockFits;
    x.RootIsBlock();
  }
}
