/**
  JSON documents as values, the order of object keys, and the two operations on an
  object's members that everything in the store has to agree with: `Put` and `Without`.
 */
module Json {
  import opened Bytes
  import opened Numbers

  type Key = Bytes
  type Member = (Key, Json)

  datatype Json =
    | Null
    | Bool(b: bool)
    | Num(n: Number)
    | Str(s: Bytes)
    | Arr(items: seq<Json>)
    | Obj(members: seq<Member>)

  // ---------------------------------------------------------------------
  // The order of keys: lexicographic on unsigned bytes
  // ---------------------------------------------------------------------

  predicate Less(a: Key, b: Key) {
    b != [] && (a == [] || a[0] < b[0] || (a[0] == b[0] && Less(a[1..], b[1..])))
  }

  lemma {:induction false} LessIrreflexive(a: Key)
    ensures !Less(a, a)
  {
    if a != [] {
      LessIrreflexive(a[1..]);
    }
  }

  lemma {:induction false} LessTransitive(a: Key, b: Key, c: Key)
    requires Less(a, b) && Less(b, c)
    ensures Less(a, c)
  {
    if a != [] && a[0] == b[0] && b[0] == c[0] {
      LessTransitive(a[1..], b[1..], c[1..]);
    }
  }

  lemma {:induction false} LessTotal(a: Key, b: Key)
    ensures Less(a, b) || Less(b, a) || a == b
  {
    if a != [] && b != [] && a[0] == b[0] {
      LessTotal(a[1..], b[1..]);
      assert a == [a[0]] + a[1..] && b == [b[0]] + b[1..];
    }
  }

  /** Keys compare at their first difference; a proper prefix comes first. */
  lemma {:induction false} LessAtDifference(a: Key, b: Key, k: nat)
    requires k <= |a| && k <= |b| && a[..k] == b[..k]
    requires (k == |a| || k == |b|) || a[k] != b[k]
    ensures Less(a, b) <==> if k < |a| && k < |b| then a[k] < b[k] else |a| < |b|
  {
    if k > 0 {
      assert a[0] == a[..k][0] == b[..k][0] == b[0];
      assert a[1..][..k - 1] == a[..k][1..] == b[..k][1..] == b[1..][..k - 1];
      LessAtDifference(a[1..], b[1..], k - 1);
    }
  }

  // ---------------------------------------------------------------------
  // Members in strictly ascending key order
  // ---------------------------------------------------------------------

  predicate Ascending(keys: seq<Key>) {
    forall i, j :: 0 <= i < j < |keys| ==> Less(keys[i], keys[j])
  }

  function Keys(ms: seq<Member>): (ks: seq<Key>)
    ensures |ks| == |ms|
  {
    seq(|ms|, i requires 0 <= i < |ms| => ms[i].0)
  }

  /** Index of the first key that is not below `key`, by a linear scan. */
  function Rank(keys: seq<Key>, key: Key): (r: nat)
    ensures r <= |keys|
    ensures forall i :: 0 <= i < r ==> Less(keys[i], key)
    ensures r < |keys| ==> !Less(keys[r], key)
  {
    if keys == [] || !Less(keys[0], key) then 0 else 1 + Rank(keys[1..], key)
  }

  predicate Present(keys: seq<Key>, key: Key) {
    Rank(keys, key) < |keys| && keys[Rank(keys, key)] == key
  }

  /** On ascending keys the rank is the only split into smaller keys and others. */
  lemma RankUnique(keys: seq<Key>, key: Key, r: nat)
    requires Ascending(keys) && r <= |keys|
    requires forall i :: 0 <= i < r ==> Less(keys[i], key)
    requires r < |keys| ==> !Less(keys[r], key)
    ensures r == Rank(keys, key)
  {
  }

  lemma PresentIsMembership(keys: seq<Key>, key: Key)
    requires Ascending(keys)
    ensures Present(keys, key) <==> key in keys
  {
    if key in keys {
      var i :| 0 <= i < |keys| && keys[i] == key;
      var r := Rank(keys, key);
      assert r <= i by { LessIrreflexive(key); }
    }
  }

  /** `ms` with `key` bound to `v`. */
  function Put(ms: seq<Member>, key: Key, v: Json): (r: seq<Member>) {
    var i := Rank(Keys(ms), key);
    if Present(Keys(ms), key) then ms[i := (key, v)] else ms[..i] + [(key, v)] + ms[i..]
  }

  function Without(ms: seq<Member>, key: Key): (r: seq<Member>) {
    var i := Rank(Keys(ms), key);
    if Present(Keys(ms), key) then ms[..i] + ms[i + 1..] else ms
  }

  /** The finite map that ascending members spell out. */
  function AsMap(ms: seq<Member>): (m: map<Key, Json>) {
    var ks := Keys(ms);
    map k | k in ks && Present(ks, k) :: ms[Rank(ks, k)].1
  }

  lemma RankOfKey(keys: seq<Key>, i: nat)
    requires Ascending(keys) && i < |keys|
    ensures Rank(keys, keys[i]) == i && Present(keys, keys[i])
  {
    LessIrreflexive(keys[i]);
    RankUnique(keys, keys[i], i);
  }

  lemma AsMapAt(ms: seq<Member>, i: nat)
    requires Ascending(Keys(ms)) && i < |ms|
    ensures ms[i].0 in AsMap(ms) && AsMap(ms)[ms[i].0] == ms[i].1
  {
    RankOfKey(Keys(ms), i);
    assert Keys(ms)[i] == ms[i].0;
  }

  lemma AsMapKeys(ms: seq<Member>, k: Key)
    requires Ascending(Keys(ms))
    ensures k in AsMap(ms) <==> Present(Keys(ms), k)
    ensures k in AsMap(ms) ==> exists i :: 0 <= i < |ms| && ms[i].0 == k
  {
    PresentIsMembership(Keys(ms), k);
    if k in AsMap(ms) {
      var i := Rank(Keys(ms), k);
      assert ms[i].0 == Keys(ms)[i];
    }
  }

  /** A map with these keys and these values is the map the members spell out. */
  lemma IsAsMap(ms: seq<Member>, m: map<Key, Json>)
    requires Ascending(Keys(ms))
    requires forall i :: 0 <= i < |ms| ==> ms[i].0 in m && m[ms[i].0] == ms[i].1
    requires forall k :: k in m ==> exists i :: 0 <= i < |ms| && ms[i].0 == k
    ensures AsMap(ms) == m
  {
    forall k
      ensures k in AsMap(ms) <==> k in m
      ensures k in m ==> k in AsMap(ms) && AsMap(ms)[k] == m[k]
    {
      AsMapKeys(ms, k);
      if k in m {
        var i :| 0 <= i < |ms| && ms[i].0 == k;
        AsMapAt(ms, i);
      }
    }
  }

  /** Ascending members are determined by the map they spell out. */
  lemma MapDeterminesMembers(a: seq<Member>, b: seq<Member>)
    requires Ascending(Keys(a)) && Ascending(Keys(b)) && AsMap(a) == AsMap(b)
    ensures a == b
  {
    forall i | 0 <= i < |a| && i < |b|
      ensures a[i] == b[i]
    {
      SameAt(a, b, i);
    }
    NoExtraMember(a, b);
    NoExtraMember(b, a);
  }

  lemma {:induction false} SameAt(a: seq<Member>, b: seq<Member>, i: nat)
    requires Ascending(Keys(a)) && Ascending(Keys(b)) && AsMap(a) == AsMap(b)
    requires i < |a| && i < |b|
    ensures a[i] == b[i]
  {
    forall j | 0 <= j < i
      ensures a[j] == b[j]
    {
      SameAt(a, b, j);
    }
    AsMapAt(a, i);
    AsMapAt(b, i);
    NotBelow(a, b, i);
    NotBelow(b, a, i);
    LessTotal(a[i].0, b[i].0);
  }

  lemma EarlierIsLess(ms: seq<Member>, j: nat, i: nat)
    requires Ascending(Keys(ms)) && j < i < |ms|
    ensures Less(ms[j].0, ms[i].0) && ms[j].0 != ms[i].0
  {
    assert Keys(ms)[j] == ms[j].0 && Keys(ms)[i] == ms[i].0;
    LessIrreflexive(ms[i].0);
  }

  lemma NotBelow(a: seq<Member>, b: seq<Member>, i: nat)
    requires Ascending(Keys(a)) && Ascending(Keys(b)) && AsMap(a) == AsMap(b)
    requires i < |a| && i < |b|
    requires forall j :: 0 <= j < i ==> a[j] == b[j]
    ensures !Less(a[i].0, b[i].0)
  {
    var k := a[i].0;
    AsMapAt(a, i);
    AsMapKeys(b, k);
    var j :| 0 <= j < |b| && b[j].0 == k;
    assert Keys(a)[i] == k && Keys(b)[j] == k && Keys(b)[i] == b[i].0;
    if j < i {
      EarlierIsLess(a, j, i);
    } else if i < j {
      EarlierIsLess(b, i, j);
      if Less(k, b[i].0) {
        LessTransitive(k, b[i].0, k);
        LessIrreflexive(k);
      }
    } else {
      LessIrreflexive(k);
    }
  }

  lemma NoExtraMember(a: seq<Member>, b: seq<Member>)
    requires Ascending(Keys(a)) && Ascending(Keys(b)) && AsMap(a) == AsMap(b)
    ensures |b| <= |a|
  {
    if |a| < |b| {
      var k := b[|a|].0;
      AsMapAt(b, |a|);
      AsMapKeys(a, k);
      var j :| 0 <= j < |a| && a[j].0 == k;
      SameAt(a, b, j);
      EarlierIsLess(b, j, |a|);
    }
  }

  // ---------------------------------------------------------------------
  // `Put` and `Without` are map update and map removal
  // ---------------------------------------------------------------------

  lemma PutKeepsOrder(ms: seq<Member>, key: Key, v: Json)
    requires Ascending(Keys(ms))
    ensures Ascending(Keys(Put(ms, key, v)))
  {
    var ks, ks' := Keys(ms), Keys(Put(ms, key, v));
    var r := Rank(ks, key);
    if Present(ks, key) {
      assert ks' == ks;
    } else {
      assert ks' == ks[..r] + [key] + ks[r..];
      AboveRank(ks, key);
    }
  }

  lemma AboveRank(ks: seq<Key>, key: Key)
    requires Ascending(ks) && !Present(ks, key)
    ensures forall i :: Rank(ks, key) <= i < |ks| ==> Less(key, ks[i])
  {
    var r := Rank(ks, key);
    forall i | r <= i < |ks|
      ensures Less(key, ks[i])
    {
      LessTotal(key, ks[r]);
      if r < i {
        LessTransitive(key, ks[r], ks[i]);
      }
    }
  }

  lemma WithoutKeepsOrder(ms: seq<Member>, key: Key)
    requires Ascending(Keys(ms))
    ensures Ascending(Keys(Without(ms, key)))
  {
    var ks := Keys(ms);
    var r := Rank(ks, key);
    if Present(ks, key) {
      assert Keys(Without(ms, key)) == ks[..r] + ks[r + 1..];
    } else {
      assert Keys(Without(ms, key)) == ks;
    }
  }

  lemma PutIsMapUpdate(ms: seq<Member>, key: Key, v: Json)
    requires Ascending(Keys(ms))
    ensures Ascending(Keys(Put(ms, key, v)))
    ensures AsMap(Put(ms, key, v)) == AsMap(ms)[key := v]
  {
    var p, m := Put(ms, key, v), AsMap(ms)[key := v];
    PutKeepsOrder(ms, key, v);
    forall i | 0 <= i < |p|
      ensures p[i].0 in m && m[p[i].0] == p[i].1
    {
      PutMemberInMap(ms, key, v, i);
    }
    forall k | k in m
      ensures exists i :: 0 <= i < |p| && p[i].0 == k
    {
      PutCoversMap(ms, key, v, k);
    }
    IsAsMap(p, m);
  }

  lemma PutMemberInMap(ms: seq<Member>, key: Key, v: Json, i: nat)
    requires Ascending(Keys(ms)) && i < |Put(ms, key, v)|
    ensures var p, m := Put(ms, key, v), AsMap(ms)[key := v];
            p[i].0 in m && m[p[i].0] == p[i].1
  {
    var p, r := Put(ms, key, v), Rank(Keys(ms), key);
    PutKeepsOrder(ms, key, v);
    if i != r {
      var j := if i < r || Present(Keys(ms), key) then i else i - 1;
      assert p[i] == ms[j];
      AsMapAt(ms, j);
      RankOfKey(Keys(p), i);
      RankOfKey(Keys(p), r);
      assert Keys(p)[i] == p[i].0 && Keys(p)[r] == key;
    }
  }

  lemma PutCoversMap(ms: seq<Member>, key: Key, v: Json, k: Key)
    requires Ascending(Keys(ms))
    requires k in AsMap(ms)[key := v]
    ensures exists i :: 0 <= i < |Put(ms, key, v)| && Put(ms, key, v)[i].0 == k
  {
    var p, r := Put(ms, key, v), Rank(Keys(ms), key);
    assert p[r].0 == key;
    if k != key {
      AsMapKeys(ms, k);
      var j :| 0 <= j < |ms| && ms[j].0 == k;
      assert Keys(ms)[j] == k;
      var i := if j < r || Present(Keys(ms), key) then j else j + 1;
      assert p[i].0 == k;
    }
  }

  lemma WithoutIsMapRemoval(ms: seq<Member>, key: Key)
    requires Ascending(Keys(ms))
    ensures Ascending(Keys(Without(ms, key)))
    ensures AsMap(Without(ms, key)) == AsMap(ms) - {key}
  {
    var p, m := Without(ms, key), AsMap(ms) - {key};
    WithoutKeepsOrder(ms, key);
    if Present(Keys(ms), key) {
      forall i | 0 <= i < |p|
        ensures p[i].0 in m && m[p[i].0] == p[i].1
      {
        RemainingMemberInMap(ms, key, i);
      }
      forall k | k in m
        ensures exists i :: 0 <= i < |p| && p[i].0 == k
      {
        RemainderCoversMap(ms, key, k);
      }
      IsAsMap(p, m);
    } else {
      AsMapKeys(ms, key);
      assert m == AsMap(ms);
    }
  }

  lemma RemainingMemberInMap(ms: seq<Member>, key: Key, i: nat)
    requires Ascending(Keys(ms)) && Present(Keys(ms), key) && i < |Without(ms, key)|
    ensures var p, m := Without(ms, key), AsMap(ms) - {key};
            p[i].0 in m && m[p[i].0] == p[i].1
  {
    var ks, r := Keys(ms), Rank(Keys(ms), key);
    var j := if i < r then i else i + 1;
    assert Without(ms, key)[i] == ms[j];
    AsMapAt(ms, j);
    RankOfKey(ks, j);
    assert ks[j] == ms[j].0;
  }

  lemma RemainderCoversMap(ms: seq<Member>, key: Key, k: Key)
    requires Ascending(Keys(ms)) && Present(Keys(ms), key)
    requires k in AsMap(ms) && k != key
    ensures exists i :: 0 <= i < |Without(ms, key)| && Without(ms, key)[i].0 == k
  {
    var ks, r := Keys(ms), Rank(Keys(ms), key);
    AsMapKeys(ms, k);
    var j :| 0 <= j < |ms| && ms[j].0 == k;
    assert ks[j] == k;
    assert Without(ms, key)[if j < r then j else j - 1] == ms[j];
  }
}
