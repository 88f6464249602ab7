/** Values stored densely in a sequence: what appending, overwriting and filling a hole with the last one do to the
    map they stand for. */
module DenseValues {
  import opened Entries

  /** The values with the one at `i` replaced by the last, and the last dropped. */
  function SwapRemove<T>(values: seq<T>, i: nat): seq<T>
    requires i < |values|
  {
    values[i := values[|values| - 1]][..|values| - 1]
  }

  lemma SwapRemoveAt<T>(values: seq<T>, i: nat)
    requires i < |values|
    ensures |SwapRemove(values, i)| == |values| - 1
    ensures forall x | 0 <= x < |values| - 1 :: SwapRemove(values, i)[x] == if x == i then values[|values| - 1]
            else values[x]
  {
  }

  lemma SwapRemoveIs<T>(values: seq<T>, i: nat)
    requires i < |values|
    ensures var last := |values| - 1;
            SwapRemove(values, i) == if i == last then values[..last] else values[i := values[last]][..last]
  {
  }

  lemma SwapRemoveMultiset<T>(values: seq<T>, i: nat)
    requires i < |values|
    ensures multiset(SwapRemove(values, i)) + multiset{values[i]} == multiset(values)
  {
    var last := |values| - 1;
    var removed := SwapRemove(values, i);
    if i == last {
      assert values == removed + [values[last]];
    } else {
      var tail := values[i + 1..last];
      assert values == values[..i] + [values[i]] + tail + [values[last]];
      assert removed == values[..i] + [values[last]] + tail;
      LastMoves(values[..i], values[i], tail, values[last]);
    }
  }

  lemma LastMoves<T>(a: seq<T>, x: T, tail: seq<T>, y: T)
    ensures multiset(a + [y] + tail) + multiset{x} == multiset(a + [x] + tail + [y])
  {
    assert multiset(a + [y] + tail) == multiset(a) + multiset{y} + multiset(tail);
    assert multiset(a + [x] + tail + [y]) == multiset(a) + multiset{x} + multiset(tail) + multiset{y};
  }

  function KeysOf<K, V>(pairs: seq<Entry<K, V>>): (keys: seq<K>)
    ensures |keys| == |pairs| && forall i | 0 <= i < |pairs| :: keys[i] == pairs[i].key
  {
    seq(|pairs|, i requires 0 <= i < |pairs| => pairs[i].key)
  }

  lemma KeysSwapRemove<K, V>(pairs: seq<Entry<K, V>>, i: nat)
    requires i < |pairs|
    ensures KeysOf(SwapRemove(pairs, i)) == SwapRemove(KeysOf(pairs), i)
    ensures i == |pairs| - 1 ==> SwapRemove(KeysOf(pairs), i) == KeysOf(pairs)[..i]
  {
  }

  lemma KeysGrow<K, V>(pairs: seq<Entry<K, V>>, e: Entry<K, V>)
    ensures KeysOf(pairs + [e]) == KeysOf(pairs) + [e.key]
  {
  }

  lemma SameKeysOf<K, V>(pairs: seq<Entry<K, V>>, slot: nat, value: V)
    requires slot < |pairs|
    ensures KeysOf(pairs[slot := pairs[slot].(value := value)]) == KeysOf(pairs)
  {
  }

  ghost predicate DistinctKeys<K, V>(values: seq<Entry<K, V>>) {
    forall i, j | 0 <= i < j < |values| :: values[i].key != values[j].key
  }

  ghost predicate HasKey<K, V>(values: seq<Entry<K, V>>, key: K) {
    exists i :: 0 <= i < |values| && values[i].key == key
  }

  ghost function KeySet<K, V>(values: seq<Entry<K, V>>): set<K> {
    set i | 0 <= i < |values| :: values[i].key
  }

  lemma KeySetGrows<K, V>(values: seq<Entry<K, V>>, e: Entry<K, V>)
    ensures KeySet(values + [e]) == KeySet(values) + {e.key}
  {
    var more := values + [e];
    assert more[|values|] == e;
    assert forall i | 0 <= i < |values| :: more[i] == values[i];
  }

  lemma {:induction false} KeySetSize<K, V>(values: seq<Entry<K, V>>)
    ensures |KeySet(values)| <= |values|
  {
    if values == [] {
      assert KeySet(values) == {};
    } else {
      var last := |values| - 1;
      KeySetSize(values[..last]);
      KeySetGrows(values[..last], values[last]);
      assert values == values[..last] + [values[last]];
    }
  }

  ghost function AsMap<K, V>(values: seq<Entry<K, V>>): map<K, V>
    requires DistinctKeys(values)
  {
    map i | 0 <= i < |values| :: values[i].key := values[i].value
  }

  lemma AsMapKeys<K, V>(values: seq<Entry<K, V>>, key: K)
    requires DistinctKeys(values)
    ensures key in AsMap(values) <==> HasKey(values, key)
    ensures forall i | 0 <= i < |values| :: values[i].key in AsMap(values) && AsMap(values)[values[i].key] == values[i].value
  {
  }

  lemma AppendKeepsMap<K, V>(values: seq<Entry<K, V>>, e: Entry<K, V>)
    requires DistinctKeys(values) && !HasKey(values, e.key)
    ensures DistinctKeys(values + [e]) && AsMap(values + [e]) == AsMap(values)[e.key := e.value]
  {
    var more := values + [e];
    assert more[|values|] == e;
    assert forall i | 0 <= i < |values| :: more[i] == values[i];
  }

  lemma SwapRemoveKeepsMap<K, V>(values: seq<Entry<K, V>>, i: nat)
    requires DistinctKeys(values) && i < |values|
    ensures DistinctKeys(SwapRemove(values, i)) && AsMap(SwapRemove(values, i)) == AsMap(values) - {values[i].key}
  {
    var r, last := SwapRemove(values, i), |values| - 1;
    assert forall x | 0 <= x < last :: r[x] == if x == i then values[last] else values[x];
    var m, m' := AsMap(values) - {values[i].key}, AsMap(r);
    forall k | k in m
      ensures k in m' && m'[k] == m[k]
    {
      var x :| 0 <= x < |values| && values[x].key == k;
      assert r[if x == last then i else x] == values[x];
    }
  }

  lemma AssignKeepsMap<K, V>(values: seq<Entry<K, V>>, i: nat, value: V)
    requires DistinctKeys(values) && i < |values|
    ensures var r := values[i := values[i].(value := value)];
            DistinctKeys(r) && AsMap(r) == AsMap(values)[values[i].key := value]
  {
    var r := values[i := values[i].(value := value)];
    assert forall x | 0 <= x < |values| :: r[x].key == values[x].key;
    assert r[i].value == value;
  }

  lemma HasKeyAt<K, V>(values: seq<Entry<K, V>>, key: K, i: nat)
    requires i < |values| && values[i].key == key
    ensures HasKey(values, key)
  {
  }

  lemma NothingStored<K, V>(values: seq<Entry<K, V>>, key: K)
    requires values == []
    ensures !HasKey(values, key)
  {
  }

  // ----- dropping repeated keys

  /** What stays of the values when those from `m` on are looked at in turn: one whose key has come before is overwritten
      with the last value, which is looked at next. */
  ghost function Deduplicated<K, V>(values: seq<Entry<K, V>>, m: nat): seq<Entry<K, V>>
    requires m <= |values|
    decreases |values| - m
  {
    if m == |values| then values
    else if HasKey(values[..m], values[m].key) then Deduplicated(SwapRemove(values, m), m)
    else Deduplicated(values, m + 1)
  }

  lemma NotBefore<K, V>(values: seq<Entry<K, V>>, m: nat, p: nat)
    requires m < p <= |values| && DistinctKeys(values[..p])
    ensures !HasKey(values[..m], values[m].key)
  {
    forall i | 0 <= i < m
      ensures values[..m][i].key != values[m].key
    {
      assert values[..p][i].key != values[..p][m].key;
    }
  }

  /** The values before a repeated key stay what and where they are. */
  lemma {:induction false} DistinctPrefixStays<K, V>(values: seq<Entry<K, V>>, m: nat, p: nat)
    requires m <= p <= |values| && (m == p || DistinctKeys(values[..p]))
    ensures values[..p] <= Deduplicated(values, m) && |Deduplicated(values, m)| <= |values|
    decreases |values| - m
  {
    if m < p {
      NotBefore(values, m, p);
    }
    if m == |values| {
    } else if HasKey(values[..m], values[m].key) {
      SwapRemoveAt(values, m);
      DistinctPrefixStays(SwapRemove(values, m), m, m);
      assert SwapRemove(values, m)[..m] == values[..m];
    } else if m < p {
      DistinctPrefixStays(values, m + 1, p);
    } else {
      DistinctPrefixStays(values, m + 1, m + 1);
      assert values[..m + 1][..m] == values[..m];
    }
  }

  /** In particular values with distinct keys all stay. */
  lemma DistinctStay<K, V>(values: seq<Entry<K, V>>)
    ensures forall m: nat | m <= |values| && DistinctKeys(values[..m]) :: values[..m] <= Deduplicated(values, 0)
    ensures DistinctKeys(values) ==> Deduplicated(values, 0) == values
  {
    forall m: nat | m <= |values| && DistinctKeys(values[..m])
      ensures values[..m] <= Deduplicated(values, 0)
    {
      DistinctPrefixStays(values, 0, m);
    }
    if DistinctKeys(values) {
      assert values[..|values|] == values;
      DistinctPrefixStays(values, 0, |values|);
    }
  }

  // ----- maps from the indices of the values

  ghost predicate Covers(pos: map<nat, nat>, m: nat) {
    forall i: nat :: i in pos <==> i < m
  }

  lemma CoversAt(at: map<nat, nat>, m: nat, s: nat)
    requires Covers(at, m)
    ensures s in at <==> s < m
  {
  }

  lemma CoversLess(from: map<nat, nat>, at: map<nat, nat>, m: nat, i: nat)
    requires Covers(from, m) && at.Keys == from.Keys - {i}
    ensures forall x: nat :: x in at <==> x < m && x != i
    ensures forall x: nat | x in at :: x in from
    ensures m > 0 && m - 1 != i ==> m - 1 in at && m - 1 in from
    ensures m > 0 && m - 1 == i ==> Covers(at, m - 1)
  {
    forall x: nat
      ensures x in at <==> x < m && x != i
    {
      assert x in at <==> x in from.Keys - {i};
    }
  }

  lemma NextNumber(pos: map<nat, nat>, m: nat)
    requires Covers(pos, m)
    ensures m !in pos
  {
  }

  lemma CoversOneMore(pos: map<nat, nat>, m: nat, b: nat)
    requires Covers(pos, m)
    ensures Covers(pos[m := b], m + 1)
  {
  }

  lemma CoversLast(pos: map<nat, nat>, m: nat)
    requires forall x: nat :: x in pos <==> x < m + 1 && x != m
    ensures Covers(pos, m)
  {
  }

  lemma CoversSame(pos: map<nat, nat>, pos': map<nat, nat>, m: nat)
    requires Covers(pos, m) && pos'.Keys == pos.Keys
    ensures Covers(pos', m)
  {
    forall i: nat
      ensures i in pos' <==> i < m
    {
      assert i in pos' <==> i in pos.Keys;
    }
  }

  lemma {:induction false} CoversSize(pos: map<nat, nat>, m: nat)
    requires Covers(pos, m)
    ensures |pos| == m
  {
    if m == 0 {
      assert pos.Keys == {};
    } else {
      var rest := pos - {m - 1};
      assert Covers(rest, m - 1);
      CoversSize(rest, m - 1);
      assert pos.Keys == rest.Keys + {m - 1};
    }
  }

  // ----- erasing a range

  /** Values from the end, last first, stand at `first..mid`. */
  ghost predicate HolesFilled<T>(was: seq<T>, values: seq<T>, first: nat, mid: nat) {
    && first <= mid <= |values| && |was| - (mid - first) >= mid
    && forall x | first <= x < mid :: values[x] == was[|was| - 1 - (x - first)]
  }

  /** A range erasure in progress: what was at `first..mid` and at `i..last` is gone, values from the end, last first, have
      filled `first..mid`, and the others have not moved. */
  ghost predicate Erasing<T>(was: seq<T>, values: seq<T>, first: nat, mid: nat, i: nat, last: nat) {
    && first <= mid <= i <= last <= |was| && mid <= |values| <= |was|
    && values[..first] == was[..first]
    && HolesFilled(was, values, first, mid)
    && (forall x | mid <= x < |values| :: values[x] == was[x])
    && multiset(values) + multiset(was[first..mid] + was[i..last]) == multiset(was)
  }

  lemma ErasingStarts<T>(was: seq<T>, first: nat)
    requires first <= |was|
    ensures Erasing(was, was, first, first, first, first)
  {
    assert was[first..first] + was[first..first] == [];
  }

  lemma Shift<T>(a: multiset<T>, b: multiset<T>, x: multiset<T>, r: multiset<T>, c: multiset<T>, w: multiset<T>)
    requires a + b == w && r + x == a && c == b + x
    ensures r + c == w
  {
  }

  /** Erasing the next value of the left part; a value from the end, past the range, fills its place. */
  lemma EraseLeft<T>(was: seq<T>, values: seq<T>, first: nat, i: nat)
    requires Erasing(was, values, first, i, i, i) && i + 1 < |values| == |was| - (i - first)
    ensures Erasing(was, SwapRemove(values, i), first, i + 1, i + 1, i + 1)
  {
    hide SwapRemove;
    SwapRemoveMultiset(values, i);
    SwapRemoveAt(values, i);
    var gone, more := was[first..i] + was[i..i], was[first..i + 1] + was[i + 1..i + 1];
    assert more == gone + [was[i]];
    Shift(multiset(values), multiset(gone), multiset{values[i]}, multiset(SwapRemove(values, i)), multiset(more),
        multiset(was));
    assert SwapRemove(values, i)[..first] == values[..first];
  }

  lemma ErasingTurns<T>(was: seq<T>, values: seq<T>, first: nat, mid: nat, last: nat)
    requires Erasing(was, values, first, mid, mid, mid) && mid <= last <= |was|
    ensures Erasing(was, values, first, mid, last, last)
  {
    assert was[first..mid] + was[mid..mid] == was[first..mid] + was[last..last];
  }

  lemma HolesStay<T>(was: seq<T>, values: seq<T>, now: seq<T>, first: nat, mid: nat)
    requires HolesFilled(was, values, first, mid) && mid <= |now| && forall x | 0 <= x < mid :: now[x] == values[x]
    ensures HolesFilled(was, now, first, mid)
  {
  }

  /** Erasing the last value of the right part, which is the last value of all. */
  lemma EraseRight<T>(was: seq<T>, values: seq<T>, first: nat, mid: nat, i: nat, last: nat)
    requires mid <= i && |values| == i + 1 && Erasing(was, values, first, mid, i + 1, last)
    ensures Erasing(was, SwapRemove(values, i), first, mid, i, last)
  {
    hide SwapRemove, HolesFilled;
    SwapRemoveMultiset(values, i);
    SwapRemoveAt(values, i);
    HolesStay(was, values, SwapRemove(values, i), first, mid);
    var gone, more := was[first..mid] + was[i + 1..last], was[first..mid] + was[i..last];
    assert was[i..last] == [was[i]] + was[i + 1..last];
    assert multiset(more) == multiset(gone) + multiset{was[i]};
    Shift(multiset(values), multiset(gone), multiset{values[i]}, multiset(SwapRemove(values, i)), multiset(more),
        multiset(was));
    assert SwapRemove(values, i)[..first] == values[..first];
  }

  lemma ErasingEnds<T>(was: seq<T>, values: seq<T>, first: nat, mid: nat, last: nat)
    requires Erasing(was, values, first, mid, mid, last)
    ensures first <= mid <= last <= |was| && mid <= |values| <= |was| && values[..first] == was[..first]
    ensures HolesFilled(was, values, first, mid)
    ensures forall x | mid <= x < |values| :: values[x] == was[x]
    ensures multiset(values) + multiset(was[first..last]) == multiset(was)
  {
    assert was[first..mid] + was[mid..last] == was[first..last];
  }
}
