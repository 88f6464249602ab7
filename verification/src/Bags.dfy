/** Multisets of entries: the maps they can stand for, and the multiset gathered from slots that may be empty. */
module Bags {
  import opened Entries

  ghost predicate HasKey<K, V>(c: multiset<Entry<K, V>>, key: K) {
    exists e :: e in c && e.key == key
  }

  /** The multiset is the graph of the map, each pair once. */
  ghost predicate MapLike<K, V>(c: multiset<Entry<K, V>>, m: map<K, V>) {
    && (forall e | e in c :: c[e] == 1 && e.key in m && m[e.key] == e.value)
    && (forall k | k in m :: Entry(k, m[k]) in c)
  }

  lemma MapLikeKeys<K, V>(c: multiset<Entry<K, V>>, m: map<K, V>, key: K)
    requires MapLike(c, m)
    ensures HasKey(c, key) <==> key in m
  {
    if key in m {
      assert Entry(key, m[key]) in c;
    }
  }

  lemma MapLikeInsert<K, V>(c: multiset<Entry<K, V>>, m: map<K, V>, key: K, value: V)
    requires MapLike(c, m) && key !in m
    ensures MapLike(c + multiset{Entry(key, value)}, m[key := value])
  {
    assert Entry(key, value) !in c;
  }

  lemma MapLikeDelete<K, V>(c: multiset<Entry<K, V>>, m: map<K, V>, e: Entry<K, V>)
    requires MapLike(c, m) && e in c
    ensures MapLike(c - multiset{e}, m - {e.key})
  {
    var c', m' := c - multiset{e}, m - {e.key};
    forall k | k in m'
      ensures Entry(k, m'[k]) in c'
    {
      assert Entry(k, m[k]) in c;
    }
  }

  lemma MapLikeAssign<K, V>(c: multiset<Entry<K, V>>, m: map<K, V>, e: Entry<K, V>, value: V)
    requires MapLike(c, m) && e in c
    ensures MapLike(c - multiset{e} + multiset{Entry(e.key, value)}, m[e.key := value])
  {
    MapLikeDelete(c, m, e);
    MapLikeInsert(c - multiset{e}, m - {e.key}, e.key, value);
    assert (m - {e.key})[e.key := value] == m[e.key := value];
  }

  // ----- multisets with one entry for a key

  ghost predicate Unique<K, V>(c: multiset<Entry<K, V>>) {
    && (forall e | e in c :: c[e] == 1)
    && (forall e, f | e in c && f in c && e.key == f.key :: e == f)
  }

  ghost function MapOf<K, V>(c: multiset<Entry<K, V>>): map<K, V>
    requires Unique(c)
  {
    map e | e in c :: e.key := e.value
  }

  lemma MapOfAt<K, V>(c: multiset<Entry<K, V>>, e: Entry<K, V>)
    requires Unique(c) && e in c
    ensures e.key in MapOf(c) && MapOf(c)[e.key] == e.value
  {
  }

  lemma MapOfKey<K, V>(c: multiset<Entry<K, V>>, k: K)
    requires Unique(c)
    ensures k in MapOf(c) <==> HasKey(c, k)
    ensures k in MapOf(c) ==> Entry(k, MapOf(c)[k]) in c
  {
  }

  lemma UniqueInsert<K, V>(c: multiset<Entry<K, V>>, e: Entry<K, V>)
    requires Unique(c) && !HasKey(c, e.key)
    ensures Unique(c + multiset{e}) && MapOf(c + multiset{e}) == MapOf(c)[e.key := e.value]
  {
    var c' := c + multiset{e};
    assert forall f :: f in c' <==> f in c || f == e;
    assert e !in c;
    assert Unique(c');
    SameMap(c', MapOf(c)[e.key := e.value]) by {
      hide MapOf, Unique;
      forall f | f in c'
        ensures f.key in MapOf(c)[e.key := e.value] && MapOf(c)[e.key := e.value][f.key] == f.value
      {
        if f != e { MapOfAt(c, f); }
      }
      forall k | k in MapOf(c)[e.key := e.value]
        ensures HasKey(c', k)
      {
        if k != e.key { MapOfKey(c, k); }
      }
    }
  }

  lemma SameMap<K, V>(c: multiset<Entry<K, V>>, m: map<K, V>)
    requires Unique(c)
    requires forall f | f in c :: f.key in m && m[f.key] == f.value
    requires forall k | k in m :: HasKey(c, k)
    ensures MapOf(c) == m
  {
    forall k | k in m
      ensures k in MapOf(c) && MapOf(c)[k] == m[k]
    {
      MapOfKey(c, k);
    }
  }

  lemma UniqueDelete<K, V>(c: multiset<Entry<K, V>>, c': multiset<Entry<K, V>>, e: Entry<K, V>)
    requires Unique(c) && c == c' + multiset{e}
    ensures Unique(c') && !HasKey(c', e.key) && MapOf(c') == MapOf(c) - {e.key}
  {
    assert e in c;
    assert forall f | f in c' :: f in c && c'[f] == c[f] - (if f == e then 1 else 0);
    assert Unique(c');
    SameMap(c', MapOf(c) - {e.key}) by {
      forall f | f in c'
        ensures f.key in MapOf(c) - {e.key} && (MapOf(c) - {e.key})[f.key] == f.value
      {
        MapOfAt(c, f);
      }
      forall k | k in MapOf(c) - {e.key}
        ensures HasKey(c', k)
      {
        MapOfKey(c, k);
        assert Entry(k, MapOf(c)[k]) in c';
      }
    }
  }

  lemma UniqueSub<K, V>(c: multiset<Entry<K, V>>, part: multiset<Entry<K, V>>)
    requires Unique(c) && part <= c
    ensures Unique(part)
  {
    forall e | e in part
      ensures e in c && part[e] == 1
    {
      assert part[e] <= c[e];
    }
  }

  /** A part of a multiset with unique keys, and one entry outside that part. */
  lemma UniquePart<K, V>(c: multiset<Entry<K, V>>, part: multiset<Entry<K, V>>, e: Entry<K, V>)
    requires Unique(c) && part + multiset{e} <= c
    ensures !HasKey(part, e.key)
  {
    forall f | f in part
      ensures f.key != e.key
    {
      assert f in c && e in c;
      assert (part + multiset{e})[e] <= c[e];
    }
  }

  lemma OneLess<T>(c: multiset<T>, c': multiset<T>, e: T)
    requires c == c' + multiset{e}
    ensures |c| == |c'| + 1
  {
  }

  /** Exchanging an entry for one with the same key. */
  lemma Exchanged<K, V>(c: multiset<Entry<K, V>>, c': multiset<Entry<K, V>>, e: Entry<K, V>, e': Entry<K, V>)
    requires Unique(c) && c' + multiset{e} == c + multiset{e'} && e in c && e.key == e'.key
    ensures Unique(c') && |c'| == |c| && MapOf(c') == MapOf(c)[e'.key := e'.value]
  {
    hide Unique, MapOf, HasKey;
    var rest := c - multiset{e};
    assert c == rest + multiset{e};
    UniqueDelete(c, rest, e);
    assert c' + multiset{e} == (rest + multiset{e'}) + multiset{e};
    Cancel(c', rest + multiset{e'}, multiset{e});
    UniqueInsert(rest, e');
    OneLess(c, rest, e);
  }

  // ----- gathering

  ghost function AsBag<T>(o: Option<T>): multiset<T> {
    if o.Some? then multiset{o.value} else multiset{}
  }

  ghost function Gather<T>(slots: seq<Option<T>>): multiset<T> {
    if slots == [] then multiset{} else Gather(slots[..|slots| - 1]) + AsBag(slots[|slots| - 1])
  }

  lemma {:induction false} GatherUpdate<T>(slots: seq<Option<T>>, i: nat, o: Option<T>)
    requires i < |slots|
    ensures Gather(slots[i := o]) + AsBag(slots[i]) == Gather(slots) + AsBag(o)
  {
    hide AsBag;
    var last, slots' := |slots| - 1, slots[i := o];
    if i == last {
      assert slots'[..last] == slots[..last];
    } else {
      GatherUpdate(slots[..last], i, o);
      assert slots'[..last] == slots[..last][i := o];
      Reorder(Gather(slots'[..last]), AsBag(slots[i]), Gather(slots[..last]), AsBag(o), AsBag(slots[last]));
    }
  }

  lemma {:induction false} GatherAt<T>(slots: seq<Option<T>>, i: nat)
    requires i < |slots| && slots[i].Some?
    ensures slots[i].value in Gather(slots)
  {
    if i < |slots| - 1 {
      GatherAt(slots[..|slots| - 1], i);
    }
  }

  lemma {:induction false} GatherMember<T>(slots: seq<Option<T>>, x: T) returns (i: nat)
    requires x in Gather(slots)
    ensures i < |slots| && slots[i] == Some(x)
  {
    if x in AsBag(slots[|slots| - 1]) {
      i := |slots| - 1;
    } else {
      i := GatherMember(slots[..|slots| - 1], x);
    }
  }

  lemma {:induction false} GatherNone<T>(slots: seq<Option<T>>)
    requires forall i | 0 <= i < |slots| :: slots[i].None?
    ensures Gather(slots) == multiset{}
  {
    if slots != [] {
      GatherNone(slots[..|slots| - 1]);
    }
  }

  /** Moving the contents of one slot to an empty one. */
  lemma GatherMove<T>(slots: seq<Option<T>>, i: nat, e: nat)
    requires i < |slots| && e < |slots| && i != e && slots[e].None?
    ensures Gather(slots[e := slots[i]][i := None]) == Gather(slots)
  {
    GatherUpdate(slots, e, slots[i]);
    GatherUpdate(slots[e := slots[i]], i, None);
    Cancel(Gather(slots[e := slots[i]][i := None]), Gather(slots), AsBag(slots[i]));
  }

  lemma Reorder<T>(a: multiset<T>, x: multiset<T>, b: multiset<T>, y: multiset<T>, z: multiset<T>)
    requires a + x == b + y
    ensures (a + z) + x == (b + z) + y
  {
    assert (a + z) + x == (a + x) + z;
    assert (b + z) + y == (b + y) + z;
  }

  lemma Cancel<T>(a: multiset<T>, b: multiset<T>, x: multiset<T>)
    requires a + x == b + x
    ensures a == b
  {
    assert forall e :: (a + x)[e] == a[e] + x[e] && (b + x)[e] == b[e] + x[e];
  }

  lemma {:induction false} GatherSize<T>(slots: seq<Option<T>>)
    ensures |Gather(slots)| <= |slots|
  {
    if slots != [] {
      GatherSize(slots[..|slots| - 1]);
    }
  }

  lemma {:induction false} GatherPrefix<T>(slots: seq<Option<T>>, m: nat)
    requires m <= |slots|
    ensures Gather(slots[..m]) <= Gather(slots)
    decreases |slots| - m
  {
    if m < |slots| {
      GatherPrefix(slots, m + 1);
      assert slots[..m + 1][..m] == slots[..m];
    } else {
      assert slots[..m] == slots;
    }
  }
}
