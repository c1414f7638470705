/**
  How the meaning of a container changes when its table or its data region does:
  what inserting, replacing and removing a table word amounts to.
 */
module Layout {
  import opened Bytes
  import opened Numbers
  import opened Json
  import opened Arena

  function Inserted<T>(s: seq<T>, i: nat, x: T): (r: seq<T>)
    requires i <= |s|
    ensures |r| == |s| + 1 && r[i] == x
    ensures forall k :: 0 <= k < i ==> r[k] == s[k]
    ensures forall k :: i < k < |r| ==> r[k] == s[k - 1]
  {
    s[..i] + [x] + s[i..]
  }

  function Removed<T>(s: seq<T>, i: nat): (r: seq<T>)
    requires i < |s|
    ensures |r| == |s| - 1
    ensures forall k :: 0 <= k < i ==> r[k] == s[k]
    ensures forall k :: i <= k < |r| ==> r[k] == s[k + 1]
  {
    s[..i] + s[i + 1..]
  }

  lemma SumInserted(s: seq<nat>, i: nat, n: nat)
    requires i <= |s|
    ensures Sum(Inserted(s, i, n)) == Sum(s) + n
  {
    hide Sum;
    SumConcat(s[..i], [n]);
    SumConcat(s[..i] + [n], s[i..]);
    SumOne(n);
    SumConcat(s[..i], s[i..]);
    assert s[..i] + s[i..] == s;
  }

  lemma SumRemoved(s: seq<nat>, i: nat)
    requires i < |s|
    ensures Sum(s) == Sum(Removed(s, i)) + s[i]
  {
    hide Sum;
    SumInserted(Removed(s, i), i, s[i]);
    assert Inserted(Removed(s, i), i, s[i]) == s;
  }

  lemma SumReplaced(s: seq<nat>, i: nat, n: nat)
    requires i < |s|
    ensures Sum(s[i := n]) + s[i] == Sum(s) + n
  {
    hide Sum;
    SumRemoved(s, i);
    SumRemoved(s[i := n], i);
    assert Removed(s[i := n], i) == Removed(s, i);
  }

  // ---------------------------------------------------------------------
  // Arrays
  // ---------------------------------------------------------------------

  lemma ArrayItem(d: Bytes, t: seq<word>, i: nat)
    requires ArrayDoc(d, t).Some? && i < |t|
    ensures ValueAt(d, t[i]) == Some(ArrayDoc(d, t).value.items[i])
  {}

  /** Item by item, and within its storage, a table spells out an array. */
  lemma IsArrayDoc(d: Bytes, t: seq<word>, vs: seq<Json>)
    requires |t| == |vs|
    requires forall i :: 0 <= i < |t| ==> ValueAt(d, t[i]) == Some(vs[i])
    requires Sum(ValueSizes(d, t)) <= |d|
    ensures ArrayDoc(d, t) == Some(Arr(vs))
  {
    assert ArrayDoc(d, t).Some?;
    assert ArrayDoc(d, t).value.items == vs;
  }

  lemma ArrayGrows(d: Bytes, x: Bytes, t: seq<word>)
    requires ArrayDoc(d, t).Some?
    ensures ArrayDoc(d + x, t) == ArrayDoc(d, t)
    ensures ValueSizes(d + x, t) == ValueSizes(d, t)
  {
    var vs := ArrayDoc(d, t).value.items;
    forall i | 0 <= i < |t|
      ensures ValueAt(d + x, t[i]) == Some(vs[i])
      ensures ValueSizes(d + x, t)[i] == ValueSizes(d, t)[i]
    {
      ArrayItem(d, t, i);
      ValueGrows(d, x, t[i]);
      StorageGrows(d, x, t[i]);
    }
    assert ValueSizes(d + x, t) == ValueSizes(d, t);
    IsArrayDoc(d + x, t, vs);
  }

  lemma ArrayInserted(d: Bytes, t: seq<word>, i: nat, w: word, v: Json)
    requires ArrayDoc(d, t).Some? && i <= |t|
    requires ValueAt(d, w) == Some(v)
    requires Sum(ValueSizes(d, t)) + UsedStorage(d, w) <= |d|
    ensures ArrayDoc(d, Inserted(t, i, w)) == Some(Arr(Inserted(ArrayDoc(d, t).value.items, i, v)))
  {
    hide ValueAt, UsedStorage, Sum;
    var vs := ArrayDoc(d, t).value.items;
    var t', vs' := Inserted(t, i, w), Inserted(vs, i, v);
    forall k | 0 <= k < |t'|
      ensures ValueAt(d, t'[k]) == Some(vs'[k])
    {
      if k != i {
        ArrayItem(d, t, if k < i then k else k - 1);
      }
    }
    assert ValueSizes(d, t') == Inserted(ValueSizes(d, t), i, UsedStorage(d, w));
    SumInserted(ValueSizes(d, t), i, UsedStorage(d, w));
    IsArrayDoc(d, t', vs');
  }

  lemma ArrayRemoved(d: Bytes, t: seq<word>, i: nat)
    requires ArrayDoc(d, t).Some? && i < |t|
    ensures ArrayDoc(d, Removed(t, i)) == Some(Arr(Removed(ArrayDoc(d, t).value.items, i)))
    ensures Sum(ValueSizes(d, Removed(t, i))) <= Sum(ValueSizes(d, t))
  {
    hide ValueAt, UsedStorage, Sum;
    var vs := ArrayDoc(d, t).value.items;
    var t', vs' := Removed(t, i), Removed(vs, i);
    forall k | 0 <= k < |t'|
      ensures ValueAt(d, t'[k]) == Some(vs'[k])
    {
      ArrayItem(d, t, if k < i then k else k + 1);
    }
    assert ValueSizes(d, t') == Removed(ValueSizes(d, t), i);
    SumRemoved(ValueSizes(d, t), i);
    IsArrayDoc(d, t', vs');
  }

  lemma ArrayReplaced(d: Bytes, t: seq<word>, i: nat, w: word, v: Json)
    requires ArrayDoc(d, t).Some? && i < |t|
    requires ValueAt(d, w) == Some(v)
    requires Sum(ValueSizes(d, t)) + UsedStorage(d, w) <= |d|
    ensures ArrayDoc(d, t[i := w]) == Some(Arr(ArrayDoc(d, t).value.items[i := v]))
  {
    hide ValueAt, UsedStorage, Sum;
    var vs := ArrayDoc(d, t).value.items;
    var t', vs' := t[i := w], vs[i := v];
    forall k | 0 <= k < |t'|
      ensures ValueAt(d, t'[k]) == Some(vs'[k])
    {
      if k != i {
        ArrayItem(d, t, k);
      }
    }
    assert ValueSizes(d, t') == ValueSizes(d, t)[i := UsedStorage(d, w)];
    SumReplaced(ValueSizes(d, t), i, UsedStorage(d, w));
    IsArrayDoc(d, t', vs');
  }

  // ---------------------------------------------------------------------
  // Objects
  // ---------------------------------------------------------------------

  /** Entry by entry, a table spells out members. */
  predicate Spells(d: Bytes, t: seq<word>, ms: seq<Member>) {
    |t| == |ms| && forall i :: 0 <= i < |t| ==> EntryAt(d, t[i]) == Some(ms[i])
  }

  lemma ObjectDocIs(d: Bytes, t: seq<word>, ms: seq<Member>)
    ensures ObjectDoc(d, t) == Some(Obj(ms)) <==>
            Spells(d, t, ms) && Ascending(Keys(ms)) && Sum(EntrySizes(d, t)) <= |d|
  {
    if forall i :: 0 <= i < |t| ==> EntryAt(d, t[i]).Some? {
      var ms' := seq(|t|, i requires 0 <= i < |t| => EntryAt(d, t[i]).value);
      assert Spells(d, t, ms) <==> ms' == ms;
    }
  }

  lemma ObjectGrows(d: Bytes, x: Bytes, t: seq<word>)
    requires ObjectDoc(d, t).Some?
    ensures ObjectDoc(d + x, t) == ObjectDoc(d, t)
    ensures EntrySizes(d + x, t) == EntrySizes(d, t)
  {
    var ms := ObjectDoc(d, t).value.members;
    ObjectDocIs(d, t, ms);
    forall i | 0 <= i < |t|
      ensures EntryAt(d + x, t[i]) == Some(ms[i])
      ensures EntrySizes(d + x, t)[i] == EntrySizes(d, t)[i]
    {
      EntryGrows(d, x, t[i]);
      EntryStorageGrows(d, x, t[i]);
    }
    assert EntrySizes(d + x, t) == EntrySizes(d, t);
    ObjectDocIs(d + x, t, ms);
  }

  lemma EntriesInserted(d: Bytes, t: seq<word>, ms: seq<Member>, i: nat, e: word, m: Member)
    requires Spells(d, t, ms) && i <= |t| && EntryAt(d, e) == Some(m)
    ensures Spells(d, Inserted(t, i, e), Inserted(ms, i, m))
    ensures Sum(EntrySizes(d, Inserted(t, i, e))) == Sum(EntrySizes(d, t)) + EntryStorage(d, e)
  {
    hide EntryAt, EntryStorage, Sum;
    assert EntrySizes(d, Inserted(t, i, e)) == Inserted(EntrySizes(d, t), i, EntryStorage(d, e));
    SumInserted(EntrySizes(d, t), i, EntryStorage(d, e));
  }

  lemma EntryReplaced(d: Bytes, t: seq<word>, ms: seq<Member>, i: nat, e: word, m: Member)
    requires Spells(d, t, ms) && i < |t| && EntryAt(d, e) == Some(m)
    ensures Spells(d, t[i := e], ms[i := m])
    ensures Sum(EntrySizes(d, t[i := e])) <= Sum(EntrySizes(d, t)) + EntryStorage(d, e)
  {
    hide EntryAt, EntryStorage, Sum;
    assert EntrySizes(d, t[i := e]) == EntrySizes(d, t)[i := EntryStorage(d, e)];
    SumReplaced(EntrySizes(d, t), i, EntryStorage(d, e));
  }

  lemma EntryRemoved(d: Bytes, t: seq<word>, ms: seq<Member>, i: nat)
    requires Spells(d, t, ms) && i < |t|
    ensures Spells(d, Removed(t, i), Removed(ms, i))
    ensures Sum(EntrySizes(d, Removed(t, i))) <= Sum(EntrySizes(d, t))
  {
    hide EntryAt, EntryStorage, Sum;
    assert EntrySizes(d, Removed(t, i)) == Removed(EntrySizes(d, t), i);
    SumRemoved(EntrySizes(d, t), i);
  }

  /** A new entry at its rank, or in place of the entry with its key, is `Put`. */
  lemma ObjectPut(d: Bytes, t: seq<word>, ms: seq<Member>, e: word, key: Key, v: Json)
    requires ObjectDoc(d, t) == Some(Obj(ms))
    requires EntryAt(d, e) == Some((key, v))
    requires Sum(EntrySizes(d, t)) + EntryStorage(d, e) <= |d|
    ensures var r := Rank(Keys(ms), key);
            ObjectDoc(d, if Present(Keys(ms), key) then t[r := e] else Inserted(t, r, e)) ==
            Some(Obj(Put(ms, key, v)))
  {
    var r := Rank(Keys(ms), key);
    ObjectDocIs(d, t, ms);
    PutKeepsOrder(ms, key, v);
    if Present(Keys(ms), key) {
      EntryReplaced(d, t, ms, r, e, (key, v));
      ObjectDocIs(d, t[r := e], Put(ms, key, v));
    } else {
      EntriesInserted(d, t, ms, r, e, (key, v));
      ObjectDocIs(d, Inserted(t, r, e), Put(ms, key, v));
    }
  }

  lemma ObjectWithout(d: Bytes, t: seq<word>, ms: seq<Member>, key: Key)
    requires ObjectDoc(d, t) == Some(Obj(ms)) && Present(Keys(ms), key)
    ensures ObjectDoc(d, Removed(t, Rank(Keys(ms), key))) == Some(Obj(Without(ms, key)))
  {
    var r := Rank(Keys(ms), key);
    ObjectDocIs(d, t, ms);
    WithoutKeepsOrder(ms, key);
    EntryRemoved(d, t, ms, r);
    ObjectDocIs(d, Removed(t, r), Without(ms, key));
  }
}
