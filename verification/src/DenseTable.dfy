/** The unordered_dense table: values stored densely, found through a robin-hood bucket index. */
module DenseTable {
  import opened Arithmetic
  import opened Entries
  import opened DenseValues
  import opened RobinHood
  import opened BucketSpread

  const DEFAULT_MAX_LOAD_FACTOR: real := 0.8

  // ----- sizes and distances

  /** A bucket is no further from its home than there are indexed values. */
  lemma DistanceBound<K, V>(g: Geometry<K>, values: seq<Entry<K, V>>, buckets: seq<Bucket>, pos: map<nat, nat>, b: nat)
    requires Index(g, values, buckets, pos) && b < |buckets|
    ensures buckets[b].df < DIST_INC * |pos| + DIST_INC
  {
    hide Index, Match, Matched;
    IndexAt(g, values, buckets, pos, b);
    IndexFacts(g, values, buckets, pos);
    if buckets[b].df != 0 {
      var i := buckets[b].idx;
      var d := ProbeMeets(g, values, buckets, pos, i);
      var h := Home(g, values[i].key);
      RunIsShort(buckets, pos, h, d + 1);
      SubsetSize(ValuesFrom(buckets, h, d + 1), pos.Keys);
      OffAt(h, d, |buckets|);
      OffAt(h, buckets[b].df / DIST_INC - 1, |buckets|);
    }
  }

  /** So many values fit whatever their homes. */
  lemma DistancesFit<K, V>(g: Geometry<K>, values: seq<Entry<K, V>>, buckets: seq<Bucket>, pos: map<nat, nat>)
    requires Index(g, values, buckets, pos) && |pos| <= MAX_STEPS
    ensures ShortDistances(buckets) && Narrow(buckets)
  {
    hide Index;
    forall b | 0 <= b < |buckets|
      ensures buckets[b].df + DIST_INC < TWO_TO_32
    {
      DistanceBound(g, values, buckets, pos, b);
    }
  }

  lemma NextWanted<K>(g: Geometry<K>, key: K, j: nat)
    requires j < MAX_STEPS
    ensures DistInc(Wanted(g, key, j)) == Wanted(g, key, j + 1)
  {
  }

  // ----- what a probe has established after `j` steps

  /** The probe is at bucket `b`, `j` steps from the key's home, and has met no match. */
  ghost predicate Probed<K, V>(g: Geometry<K>, values: seq<Entry<K, V>>, buckets: seq<Bucket>, key: K, j: nat,
      df: nat, b: nat) {
    && j < |buckets| && Home(g, key) < |buckets| && b == At(Home(g, key), j, |buckets|) && df == Wanted(g, key, j)
    && forall t: nat | t < j :: !Match(g, values, key, t, buckets[At(Home(g, key), t, |buckets|)])
  }

  lemma ProbeStarts<K, V>(g: Geometry<K>, values: seq<Entry<K, V>>, buckets: seq<Bucket>, pos: map<nat, nat>, key: K)
    requires Index(g, values, buckets, pos)
    ensures Probed(g, values, buckets, key, 0, Fingerprint(g, key), Home(g, key))
    ensures Reached(g, buckets, key, 0, Home(g, key))
  {
    HomeInRange(g, |buckets|, key);
  }

  lemma ProbeAdvances<K, V>(g: Geometry<K>, values: seq<Entry<K, V>>, buckets: seq<Bucket>, key: K, j: nat, df: nat, b: nat)
    requires Probed(g, values, buckets, key, j, df, b) && j + 1 < |buckets| && j < MAX_STEPS
    requires !Match(g, values, key, j, buckets[b])
    ensures Next(b, |buckets|) < |buckets|
    ensures Probed(g, values, buckets, key, j + 1, DistInc(df), Next(b, |buckets|))
  {
    StepAt(Home(g, key), j, |buckets|);
    NextWanted(g, key, j);
  }

  /** Where the probe is sure to have met a nearer bucket. */
  lemma {:induction false} RicherFrom<K>(g: Geometry<K>, buckets: seq<Bucket>, key: K, e: nat, j: nat)
    requires Ordered(buckets) && Home(g, key) < |buckets| && e <= j < |buckets|
    requires buckets[At(Home(g, key), e, |buckets|)].df == 0
    ensures buckets[At(Home(g, key), j, |buckets|)].df < Wanted(g, key, j)
    decreases j
  {
    if e < j {
      RicherFrom(g, buckets, key, e, j - 1);
      RicherStays(g, buckets, key, j - 1);
    }
  }

  /** A bucket with the probe's distance and fingerprint stands for a value; comparing its key decides the match. */
  lemma EqualDecides<K, V>(g: Geometry<K>, values: seq<Entry<K, V>>, buckets: seq<Bucket>, pos: map<nat, nat>,
      key: K, j: nat, df: nat, b: nat)
    requires Index(g, values, buckets, pos) && Probed(g, values, buckets, key, j, df, b) && buckets[b].df == df
    ensures buckets[b].idx < |values| && buckets[b].idx in pos && df != 0
    ensures Match(g, values, key, j, buckets[b]) <==> values[buckets[b].idx].key == key
  {
    IndexAt(g, values, buckets, pos, b);
  }

  /** Stopping at a nearer bucket: no indexed value has the key. */
  lemma StopMeansAbsent<K, V>(g: Geometry<K>, values: seq<Entry<K, V>>, buckets: seq<Bucket>, pos: map<nat, nat>,
      key: K, j: nat, df: nat, b: nat)
    requires Index(g, values, buckets, pos) && Probed(g, values, buckets, key, j, df, b) && buckets[b].df < df
    ensures forall i: nat | i in pos :: i < |values| && values[i].key != key
  {
    RicherMeansAbsent(g, values, buckets, pos, key, j);
  }

  class Table<K(==), V> {
    const hash: K -> Word64
    var values: seq<Entry<K, V>>
    var buckets: seq<Bucket>
    var maxBucketCapacity: int
    var maxLoadFactor: real
    var shifts: nat
    /** For every indexed value the bucket that stands for it. */
    ghost var pos: map<nat, nat>

    ghost function G(): Geometry<K>
      reads `shifts
    {
      Geometry(hash, shifts)
    }

    ghost predicate Indexed(m: nat)
      reads this
    {
      && Index(G(), values, buckets, pos) && Covers(pos, m) && m <= |values| && m < |buckets|
      && ShortDistances(buckets)
    }

    ghost predicate Limits()
      reads this
    {
      0.0 <= maxLoadFactor && maxBucketCapacity == BucketLimit(|buckets|, maxLoadFactor)
    }

    ghost predicate Valid()
      reads this
    {
      Indexed(|values|) && DistinctKeys(values) && Limits()
    }

    lemma Facts(m: nat)
      requires Indexed(m)
      ensures Index(G(), values, buckets, pos) && Matched(buckets, pos) && Ordered(buckets)
      ensures |pos| == m < |buckets| && 4 <= |buckets| && 4 < MAX_STEPS && m <= |values| && Covers(pos, m)
      ensures ShortDistances(buckets) && Narrow(buckets)
      ensures forall key :: Home(G(), key) < |buckets| && Home(G(), key) == ShiftRight(hash(key), shifts)
      ensures forall i: nat :: i in pos <==> i < m
    {
      CoversSize(pos, m);
      IndexFacts(G(), values, buckets, pos);
    }

    /** The table has room for one more key: with the buckets it has, or with twice as many when that key makes it
        grow, a bucket stays empty and every distance fits. */
    ghost predicate CanTake(key: K)
      reads this
    {
      var keys := KeySet(values) + {key};
      if |values| + 1 > maxBucketCapacity
      then shifts > 32 && Fits(Geometry(hash, shifts - 1), keys, 2 * |buckets|)
      else Fits(G(), keys, |buckets|)
    }

    /** What is stored fits, so the room asked for is exactly what an insertion must leave. */
    lemma ValidFits()
      requires Valid()
      ensures Fits(G(), KeySet(values), |buckets|)
    {
      hide Index, Covers, KeySet, Spread, ShortDistances;
      assert values[..|values|] == values;
      PrefixKeys(values, |values|);
      ShortIffSpread(G(), values, buckets, pos, |values|);
    }

    /** With a load factor below one there is room while the keys are spread over the present buckets. */
    lemma SpreadKeysFit(key: K)
      requires Valid() && maxLoadFactor < 1.0 && |values| + 1 < TWO_TO_32
      requires Spread(G(), KeySet(values) + {key}, |buckets|)
      ensures CanTake(key)
    {
      hide Index, Covers, KeySet, Spread, ShortDistances, DistinctKeys, Home, BucketLimit, NumBuckets, GoodGeometry;
      assert values[..|values|] == values;
      PrefixKeys(values, |values|);
      GeometryOfTable();
      RoomBelowLimit(shifts, maxLoadFactor, |values|);
      if |values| + 1 > maxBucketCapacity {
        SpreadDoubles(hash, shifts, KeySet(values) + {key}, |buckets|);
      }
    }

    /** So there is for few values, whatever the hash. */
    lemma FewKeysFit(key: K)
      requires Valid() && maxLoadFactor < 1.0 && |values| < MAX_STEPS
      ensures CanTake(key)
    {
      hide Index, Covers, KeySet, Spread, ShortDistances, DistinctKeys, CanTake;
      assert values[..|values|] == values;
      PrefixKeys(values, |values|);
      FewAreSpread(G(), KeySet(values) + {key}, |buckets|);
      SpreadKeysFit(key);
    }

    function BucketIdxFromHash(h: Word64): nat
      reads this
    {
      ShiftRight(h, shifts)
    }

    static function DistAndFingerprintFromHash(h: Word64): nat {
      DIST_INC + h % DIST_INC
    }

    /** Compares distance and fingerprint, and the keys only when they agree. */
    method MatchesAt(key: K, df: nat, b: nat, ghost m: nat, ghost j: nat) returns (hit: bool)
      requires Indexed(m) && b < |buckets| && Probed(G(), values, buckets, key, j, df, b)
      ensures hit <==> Match(G(), values, key, j, buckets[b])
      ensures hit ==> buckets[b].idx < m <= |values| && values[buckets[b].idx].key == key && df == buckets[b].df
    {
      hide *;
      Facts(m);
      if df == buckets[b].df {
        EqualDecides(G(), values, buckets, pos, key, j, df, b);
        hit := key == values[buckets[b].idx].key;
      } else {
        UnequalNoMatch(G(), values, buckets, key, j, df, b);
        hit := false;
      }
    }

    /** The index of the key's value. Two probes are made before the loop that also watches for nearer buckets. */
    method DoFind(key: K) returns (r: Option<nat>)
      requires Valid()
      ensures r.Some? ==> r.value < |values| && values[r.value].key == key
      ensures r.None? ==> !HasKey(values, key)
    {
      hide *;
      ghost var g, n, m := G(), |buckets|, |values|;
      ValidFacts();
      if values == [] {
        NothingStored(values, key);
        return None;
      }
      Facts(m);
      ghost var e := EmptyAhead(buckets, pos, Home(g, key), 0);
      ProbeStarts(g, values, buckets, pos, key);
      var mh := hash(key);
      HashParts(key);
      var df: nat := DistAndFingerprintFromHash(mh);
      var b: nat := BucketIdxFromHash(mh);
      var hit := MatchesAt(key, df, b, m, 0);
      if hit { return Some(buckets[b].idx); }
      ProbeAdvances(g, values, buckets, key, 0, df, b);
      df, b := DistInc(df), Next(b, |buckets|);
      hit := MatchesAt(key, df, b, m, 1);
      if hit { return Some(buckets[b].idx); }
      ProbeAdvances(g, values, buckets, key, 1, df, b);
      df, b := DistInc(df), Next(b, |buckets|);
      ghost var j: nat := 2;
      while true
        invariant j < n && b < n && Probed(g, values, buckets, key, j, df, b)
        decreases n - j
      {
        hit := MatchesAt(key, df, b, m, j);
        if hit {
          return Some(buckets[b].idx);
        } else if df > buckets[b].df {
          StopMeansAbsent(g, values, buckets, pos, key, j, df, b);
          NotIndexed(values, pos, key);
          return None;
        }
        NotYetEmpty(g, values, buckets, key, j, df, b, e);
        ProbeAdvances(g, values, buckets, key, j, df, b);
        df, b := DistInc(df), Next(b, |buckets|);
        j := j + 1;
      }
    }

    // ----- insertion

    /** Where a key that is known to be absent belongs. */
    method NextWhileLess(key: K, ghost m: nat) returns (df: nat, b: nat, ghost j: nat)
      requires Indexed(m)
      ensures b < |buckets| && df == Wanted(G(), key, j) && Reached(G(), buckets, key, j, b) && buckets[b].df <= df
      ensures Passed(G(), buckets, key, j) && j < |buckets|
    {
      hide *;
      ghost var g, n := G(), |buckets|;
      Facts(m);
      ghost var e := EmptyAhead(buckets, pos, Home(g, key), 0);
      ProbeStarts(g, values, buckets, pos, key);
      WantedStarts(g, key);
      PassedStarts(g, buckets, key);
      HashParts(key);
      var h := hash(key);
      df := DistAndFingerprintFromHash(h);
      b := BucketIdxFromHash(h);
      j := 0;
      while df < buckets[b].df
        invariant j <= e && b < n && df == Wanted(g, key, j) && Reached(g, buckets, key, j, b) && Passed(g, buckets, key, j)
        decreases n - j
      {
        NotAtEmpty(g, buckets, key, j, b, e);
        ReachedNext(g, buckets, key, j, b);
        PassedNext(g, buckets, key, j, b);
        df := DistInc(df);
        b := Next(b, |buckets|);
        j := j + 1;
      }
    }

    /** Puts a bucket at `place` and shifts the buckets in its way up to the next empty one. */
    method PlaceAndShiftUp(df: nat, i: nat, place: nat, ghost j: nat, ghost m: nat)
      requires Indexed(m) && i == m < |values| && place < |buckets|
      requires Reached(G(), buckets, values[i].key, j, place) && df == Wanted(G(), values[i].key, j)
               && buckets[place].df <= df
      modifies this`buckets, this`pos
      ensures Index(G(), values, buckets, pos) && Covers(pos, m + 1) && |buckets| == old(|buckets|)
    {
      hide *;
      ghost var g, n, was, from := G(), |buckets|, buckets, pos;
      Facts(m);
      ghost var e := EmptyAhead(buckets, pos, place, 0);
      var bucket := Bucket(df, i);
      ghost var new_ := bucket;
      var p := place;
      ghost var k: nat := 0;
      ShiftUpStarts(was, place, new_);
      while 0 != buckets[p].df
        invariant k <= e && |buckets| == n && p < n && p == At(place, k, n)
        invariant buckets == ShiftedUp(was, place, k, new_) && bucket == Carried(was, place, k, new_)
        invariant buckets[p] == was[p]
        decreases n - k
      {
        StopsAtEmpty(was, place, k, e);
        ShiftUpStep(was, place, k, new_);
        ghost var next := At(place, k + 1, n);
        bucket, buckets := buckets[p], buckets[p := bucket];
        bucket := Inc(bucket);
        p := Next(p, |buckets|);
        k := k + 1;
        ShiftUpStep(was, place, k, new_);
      }
      ShiftUpStep(was, place, k, new_);
      buckets := buckets[p := bucket];
      RunEndsAt(was, place, k, e);
      InsertKeeps(g, values, was, from, j, place, k + 1, i);
      pos := PosUp(from, n, place, k + 1, i);
      CoversMore(from, pos, m);
    }

    method ClearBuckets(n: nat)
      requires GoodGeometry(G(), n)
      modifies this`buckets, this`pos
      ensures Index(G(), values, buckets, pos) && Covers(pos, 0) && |buckets| == n > 0 && ShortDistances(buckets)
    {
      hide Pow2;
      buckets := seq(n, b => Bucket(0, 0));
      pos := map[];
    }

    /** Builds the bucket index afresh from the values. */
    method ClearAndFillBucketsFromValues(n: nat)
      requires GoodGeometry(G(), n) && DistinctKeys(values) && Fits(G(), KeySet(values), n)
      modifies this`buckets, this`pos
      ensures Indexed(|values|) && |buckets| == n
    {
      hide Index, Covers, GoodGeometry, Wanted, Reached, DistinctKeys, KeySet, Fits, ShortDistances;
      ClearBuckets(n);
      StartsIndexed();
      var valueIdx := 0;
      while valueIdx < |values|
        invariant valueIdx <= |values| && Indexed(valueIdx) && |buckets| == n
      {
        var df, b, j := NextWhileLess(values[valueIdx].key, valueIdx);
        PlaceAndShiftUp(df, valueIdx, b, j, valueIdx);
        PrefixDistinct(values, valueIdx + 1);
        PrefixFits(G(), values, valueIdx + 1, n);
        IndexedMade(valueIdx + 1);
        valueIdx := valueIdx + 1;
      }
    }

    /** Doubles the number of buckets, with all values already in place. */
    method IncreaseSize()
      requires GoodGeometry(G(), |buckets|) && DistinctKeys(values) && 0.0 <= maxLoadFactor && shifts > 32
      requires Fits(Geometry(hash, shifts - 1), KeySet(values), 2 * |buckets|)
      modifies this`shifts, this`buckets, this`pos, this`maxBucketCapacity
      ensures Indexed(|values|) && Limits() && |buckets| == 2 * old(|buckets|)
    {
      hide Index, Covers, Home, Fits, KeySet, DistinctKeys;
      ghost var was := |buckets|;
      shifts := shifts - 1;
      DoubledGeometry(hash, shifts, was);
      var numBuckets := NumBuckets(shifts);
      maxBucketCapacity := BucketLimit(numBuckets, maxLoadFactor);
      ClearAndFillBucketsFromValues(numBuckets);
    }

    /** Appends a value and indexes it, growing first when the values exceed the limit. */
    method DoPlaceElement(df: nat, b: nat, key: K, value: V, ghost j: nat) returns (valueIdx: nat)
      requires Valid() && CanTake(key) && b < |buckets|
      requires Reached(G(), buckets, key, j, b) && df == Wanted(G(), key, j) && buckets[b].df <= df
      requires !HasKey(values, key)
      modifies this
      ensures Valid() && values == old(values) + [Entry(key, value)] && valueIdx == old(|values|)
      ensures |buckets| == if old(|values|) + 1 > old(maxBucketCapacity) then 2 * old(|buckets|) else old(|buckets|)
      ensures maxLoadFactor == old(maxLoadFactor)
    {
      hide Index, Covers, Home, Wanted, Reached, DistinctKeys, HasKey, KeySet, Fits, ShortDistances;
      AppendKeepsMap(values, Entry(key, value));
      ghost var before := values;
      values := values + [Entry(key, value)];
      IndexGrows(G(), before, values, buckets, pos);
      KeySetGrows(before, Entry(key, value));
      valueIdx := |values| - 1;
      if |values| > maxBucketCapacity {
        IncreaseSize();
      } else {
        PlaceAndShiftUp(df, valueIdx, b, j, valueIdx);
        assert values[..|values|] == values;
        PrefixFits(G(), values, |values|, |buckets|);
        IndexedMade(|values|);
      }
    }

    /** The key's value when it is there, otherwise a new value at the end. */
    method DoTryEmplace(key: K, value: V) returns (valueIdx: nat, inserted: bool)
      requires Valid() && (HasKey(values, key) || CanTake(key))
      modifies this
      ensures Valid() && valueIdx < |values| && values[valueIdx].key == key
      ensures inserted <==> !HasKey(old(values), key)
      ensures values == if inserted then old(values) + [Entry(key, value)] else old(values)
      ensures AsMap(values) == if inserted then old(AsMap(values))[key := value] else old(AsMap(values))
      ensures maxLoadFactor == old(maxLoadFactor)
      ensures |buckets| == if inserted && old(|values| + 1 > maxBucketCapacity) then 2 * old(|buckets|) else old(|buckets|)
    {
      hide *;
      ValidFacts();
      ghost var g, n, m, before, was, at := G(), |buckets|, |values|, values, buckets, pos;
      Facts(m);
      ghost var e := EmptyAhead(buckets, pos, Home(g, key), 0);
      ProbeStarts(g, values, buckets, pos, key);
      HashParts(key);
      WantedStarts(g, key);
      var h := hash(key);
      var df: nat := DistAndFingerprintFromHash(h);
      var b: nat := BucketIdxFromHash(h);
      ghost var j: nat := 0;
      while true
        invariant Valid() && values == before && buckets == was && pos == at && G() == g && j < n && b < n && j <= e
        invariant Probed(g, values, buckets, key, j, df, b) && Reached(g, buckets, key, j, b) && df == Wanted(g, key, j)
        invariant Index(g, values, buckets, pos) && Indexed(m) && (HasKey(values, key) || CanTake(key))
        invariant maxLoadFactor == old(maxLoadFactor) && maxBucketCapacity == old(maxBucketCapacity)
        decreases n - j
      {
        var hit := MatchesAt(key, df, b, m, j);
        if hit {
          HasKeyAt(values, key, buckets[b].idx);
          return buckets[b].idx, false;
        } else if df > buckets[b].df {
          StopMeansAbsent(g, values, buckets, pos, key, j, df, b);
          NotIndexed(values, pos, key);
          AppendKeepsMap(values, Entry(key, value));
          valueIdx := DoPlaceElement(df, b, key, value, j);
          return valueIdx, true;
        }
        NotAtEmpty(g, buckets, key, j, b, e);
        ProbeAdvances(g, values, buckets, key, j, df, b);
        ReachedNext(g, buckets, key, j, b);
        df, b := DistInc(df), Next(b, |buckets|);
        j := j + 1;
      }
    }

    method InsertOrAssign(key: K, value: V) returns (valueIdx: nat, inserted: bool)
      requires Valid() && (HasKey(values, key) || CanTake(key))
      modifies this
      ensures Valid() && valueIdx < |values| && values[valueIdx] == Entry(key, value)
      ensures inserted <==> !HasKey(old(values), key)
      ensures AsMap(values) == old(AsMap(values))[key := value]
      ensures maxLoadFactor == old(maxLoadFactor)
      ensures |buckets| == if inserted && old(|values| + 1 > maxBucketCapacity) then 2 * old(|buckets|) else old(|buckets|)
    {
      valueIdx, inserted := DoTryEmplace(key, value);
      if !inserted {
        AssignKeepsMap(values, valueIdx, value);
        IndexSameKeys(G(), values, values[valueIdx := values[valueIdx].(value := value)], buckets, pos);
        values := values[valueIdx := values[valueIdx].(value := value)];
      }
    }

    // ----- erasure

    /** Takes out the value of a bucket: shifts the buckets after it down, and moves the last value into the hole. */
    method DoErase(bucketIdx: nat) returns (erased: Entry<K, V>)
      requires Valid() && bucketIdx < |buckets| && buckets[bucketIdx].df != 0
      modifies this`values, this`buckets, this`pos
      ensures Valid() && |buckets| == old(|buckets|)
      ensures old(buckets[bucketIdx].idx) < old(|values|) && erased == old(values[buckets[bucketIdx].idx])
      ensures values == SwapRemove(old(values), old(buckets[bucketIdx].idx))
      ensures AsMap(values) == old(AsMap(values)) - {erased.key}
    {
      hide *;
      ValidFacts();
      Facts(|values|);
      ghost var g, before := G(), values;
      IndexAt(g, values, buckets, pos, bucketIdx);
      var valueIdxToRemove := buckets[bucketIdx].idx;
      ShiftDownFrom(bucketIdx);
      erased := values[valueIdxToRemove];
      SwapRemoveKeepsMap(values, valueIdxToRemove);
      ReindexKeeps(g, values, buckets, pos, valueIdxToRemove);
      if valueIdxToRemove != |values| - 1 {
        var last := |values| - 1;
        var b := FindIndex(values[last].key, last);
        ReindexedIsShort(buckets, b, valueIdxToRemove);
        buckets := buckets[b := buckets[b].(idx := valueIdxToRemove)];
        pos := (pos - {last})[valueIdxToRemove := b];
        values := values[valueIdxToRemove := values[last]];
      }
      values := values[..|values| - 1];
      SwapRemoveIs(before, valueIdxToRemove);
      ErasedIsValid();
    }

    /** Shifts down the buckets after the erased one that are away from their homes. */
    method ShiftDownFrom(bucketIdx: nat)
      requires Indexed(|values|) && bucketIdx < |buckets| && buckets[bucketIdx].df != 0
      modifies this`buckets, this`pos
      ensures Index(G(), values, buckets, pos) && |buckets| == old(|buckets|) && ShortDistances(buckets)
      ensures forall x: nat :: x in pos <==> x < |values| && x != old(buckets[bucketIdx].idx)
    {
      hide *;
      Facts(|values|);
      ghost var g, n, was, from := G(), |buckets|, buckets, pos;
      ghost var e := EmptyAhead(buckets, pos, bucketIdx, 0);
      var b := bucketIdx;
      var next := Next(b, |buckets|);
      ghost var k: nat := 0;
      ShiftDownStarts(was, bucketIdx);
      ShiftDownStep(was, bucketIdx, 0);
      EmptyIsLater(was, bucketIdx, e);
      while buckets[next].df >= DIST_INC * 2
        invariant |buckets| == n && k < e && b == At(bucketIdx, k, n) && next == At(bucketIdx, k + 1, n) && b < n && next < n
        invariant buckets == ShiftedDown(was, bucketIdx, k) && buckets[next] == was[next] && buckets[next].df < TWO_TO_32
        invariant forall t: nat | 1 <= t <= k :: was[At(bucketIdx, t, n)].df >= DIST_INC * 2
        decreases n - k
      {
        StopsBeforeEmpty(was, bucketIdx, k, e);
        ShiftDownStep(was, bucketIdx, k);
        buckets := buckets[b := Dec(buckets[next])];
        b, next := next, Next(next, |buckets|);
        k := k + 1;
        ShiftDownStep(was, bucketIdx, k);
      }
      TailEndsAt(was, bucketIdx, k);
      buckets := buckets[b := Bucket(0, 0)];
      ErasedIs(was, bucketIdx, k);
      EraseKeeps(g, values, was, from, bucketIdx, k);
      ErasedIsShort(was, bucketIdx, k);
      pos := PosDown(from, n, bucketIdx, k, was[bucketIdx].idx);
      CoversLess(from, pos, |values|, was[bucketIdx].idx);
    }

    /** Looks from the key's home for the bucket of the value with index `i`. Empty buckets carry index 0,
        but none lies between a home and a bucket that counts its steps from there. */
    method FindIndex(key: K, i: nat) returns (b: nat)
      requires Index(G(), values, buckets, pos) && i in pos && i < |values| && values[i].key == key
      ensures b < |buckets| && b == pos[i]
    {
      hide *;
      IndexFacts(G(), values, buckets, pos);
      ghost var d := ProbeMeets(G(), values, buckets, pos, i);
      HashParts(key);
      var h := hash(key);
      b := BucketIdxFromHash(h);
      ghost var t: nat := 0;
      AtStart(b, |buckets|);
      while i != buckets[b].idx
        invariant t <= d && b < |buckets| && b == At(Home(G(), key), t, |buckets|)
        decreases d - t
      {
        StepAt(Home(G(), key), t, |buckets|);
        b := Next(b, |buckets|);
        t := t + 1;
      }
      FoundIndex(G(), values, buckets, pos, i, t, d);
    }

    lemma ErasedIsValid()
      requires Index(G(), values, buckets, pos) && Covers(pos, |values|) && DistinctKeys(values) && Limits()
      requires |values| < |buckets| && ShortDistances(buckets)
      ensures Valid()
    {
    }

    /** Erases a key; 1 when it was there, 0 otherwise. */
    method DoEraseKey(key: K) returns (count: nat)
      requires Valid()
      modifies this`values, this`buckets, this`pos
      ensures Valid() && count == if HasKey(old(values), key) then 1 else 0
      ensures AsMap(values) == old(AsMap(values)) - {key}
      ensures count == 0 ==> values == old(values)
      ensures count == 1 ==> exists i: nat :: i < old(|values|) && old(values)[i].key == key
                                              && values == SwapRemove(old(values), i)
    {
      hide *;
      ValidFacts();
      AsMapKeys(values, key);
      if values == [] {
        NothingStored(values, key);
        return 0;
      }
      ghost var g, n, m, was, at, before := G(), |buckets|, |values|, buckets, pos, values;
      Facts(m);
      ghost var e := EmptyAhead(buckets, pos, Home(g, key), 0);
      var df: nat, b: nat, j := NextWhileLess(key, m);
      ReachedProbed(g, values, buckets, pos, key, j, b);
      while true
        invariant Valid() && values == before && buckets == was && pos == at && G() == g && j < n && b < n
        invariant Probed(g, values, buckets, key, j, df, b) && buckets[b].df <= df
        decreases n - j
      {
        if df != buckets[b].df { break; }
        var hit := MatchesAt(key, df, b, m, j);
        if hit { break; }
        NotYetEmpty(g, values, buckets, key, j, df, b, e);
        ProbeAdvances(g, values, buckets, key, j, df, b);
        NotFarther(g, values, buckets, key, j, df, b);
        df := DistInc(df);
        b := Next(b, |buckets|);
        j := j + 1;
      }
      if df != buckets[b].df {
        StopMeansAbsent(g, values, buckets, pos, key, j, df, b);
        NotIndexed(values, pos, key);
        assert AsMap(values) - {key} == AsMap(values);
        return 0;
      }
      EqualDecides(g, values, buckets, pos, key, j, df, b);
      HasKeyAt(values, key, buckets[b].idx);
      var erased := DoErase(b);
      return 1;
    }

    /** `erase(iterator)`: erases the value with index `i`. */
    method EraseAt(i: nat)
      requires Valid() && i < |values|
      modifies this`values, this`buckets, this`pos
      ensures Valid() && values == SwapRemove(old(values), i)
      ensures AsMap(values) == old(AsMap(values)) - {old(values)[i].key}
    {
      hide Index, DistinctKeys;
      Facts(|values|);
      var b := FindIndex(values[i].key, i);
      IndexFacts(G(), values, buckets, pos);
      var erased := DoErase(b);
    }

    /** The left loop of `EraseRange`: values from the end fill the holes it makes. */
    method EraseLeftPart(first: nat, mid: nat)
      requires Valid() && first <= mid && 2 * mid - first <= |values|
      modifies this`values, this`buckets, this`pos
      ensures Valid() && |values| == old(|values|) - (mid - first)
      ensures Erasing(old(values), values, first, mid, mid, mid)
    {
      hide *;
      ghost var was := values;
      var idx: nat := first;
      ErasingStarts(was, first);
      while idx != mid
        invariant Valid() && first <= idx <= mid && |values| == |was| - (idx - first)
        invariant Erasing(was, values, first, idx, idx, idx)
        decreases mid - idx
      {
        EraseLeft(was, values, first, idx);
        SwapRemoveAt(values, idx);
        EraseAt(idx);
        idx := idx + 1;
      }
    }

    /** The right loop of `EraseRange`, down to `mid`: each value erased is the last one. */
    method EraseRightPart(ghost was: seq<Entry<K, V>>, first: nat, mid: nat, last: nat)
      requires Valid() && first <= mid <= last <= |was| && |values| == |was| - (mid - first)
      requires mid < last ==> |values| == last
      requires Erasing(was, values, first, mid, last, last)
      modifies this`values, this`buckets, this`pos
      ensures Valid() && |values| == |was| - (last - first) && Erasing(was, values, first, mid, mid, last)
    {
      hide *;
      var idx: nat := last;
      while idx != mid
        invariant Valid() && mid <= idx <= last && |values| == |was| - (mid - first) - (last - idx)
        invariant mid < last ==> |values| == idx
        invariant Erasing(was, values, first, mid, idx, last)
        decreases idx
      {
        idx := idx - 1;
        EraseRight(was, values, first, mid, idx, last);
        SwapRemoveAt(values, idx);
        EraseAt(idx);
      }
    }

    /** Erases the values with indices from `first` up to `last`: from the left while values from the end fill the
        holes, then from the right. */
    method EraseRange(first: nat, last: nat)
      requires Valid() && first <= last <= |values|
      modifies this`values, this`buckets, this`pos
      ensures Valid() && |values| == old(|values|) - (last - first)
      ensures multiset(values) + multiset(old(values)[first..last]) == multiset(old(values))
      ensures values[..first] == old(values)[..first]
      ensures HolesFilled(old(values), values, first, first + Least(last - first, old(|values|) - last))
      ensures forall x | first + Least(last - first, old(|values|) - last) <= x < |values| :: values[x] == old(values)[x]
    {
      hide *;
      ghost var was := values;
      var firstToLast, lastToEnd := last - first, |values| - last;
      var mid := first + Least(firstToLast, lastToEnd);
      assert mid == first + Least(last - first, old(|values|) - last);
      LeastIs(firstToLast, lastToEnd);
      EraseLeftPart(first, mid);
      ErasingTurns(was, values, first, mid, last);
      EraseRightPart(was, first, mid, last);
      ErasingEnds(was, values, first, mid, last);
      assert HolesFilled(was, values, first, mid);
    }

    // ----- replacing all values

    /** The largest shift, hence the fewest buckets, whose load holds so many values; zero when none does. */
    method CalcShiftsForSize(size: nat) returns (s: nat)
      ensures ShiftsFor(size, maxLoadFactor, s)
    {
      s := 62;
      while s > 0 && LoadOf(s, maxLoadFactor) < size
        invariant s <= 62 && forall x: nat | s < x <= 62 :: LoadOf(x, maxLoadFactor) < size
      {
        s := s - 1;
      }
    }

    /** The buckets that `Replace` settles on hold the container's keys, each once. */
    ghost predicate CanReplace(container: seq<Entry<K, V>>)
      reads this
    {
      forall s: nat | ShiftsFor(|container|, maxLoadFactor, s) ::
        var t := if s < shifts then s else shifts; t >= 32 && Fits(Geometry(hash, t), KeySet(container), NumBuckets(t))
    }

    /** So they do when the container is short enough, whatever the hash. */
    lemma FewReplaced(container: seq<Entry<K, V>>)
      requires Valid() && maxLoadFactor < 1.0 && |container| <= MAX_STEPS
      requires |container| <= (TWO_TO_32 as real * maxLoadFactor).Floor
      ensures CanReplace(container)
    {
      hide Index, Indexed, Spread, DistinctKeys, KeySet, NumBuckets, LoadOf, ShiftsFor;
      GeometryOfTable();
      forall s: nat | ShiftsFor(|container|, maxLoadFactor, s)
        ensures var t := if s < shifts then s else shifts;
                t >= 32 && Fits(Geometry(hash, t), KeySet(container), NumBuckets(t))
      {
        var t := if s < shifts then s else shifts;
        ShiftsAtLeast(|container|, maxLoadFactor, s);
        FewerBuckets(t, s);
        LoadIsBelow(s, maxLoadFactor);
        KeySetSize(container);
        FewAreSpread(Geometry(hash, t), KeySet(container), NumBuckets(t));
      }
    }

    /** Takes over a container, dropping values whose keys have come before. */
    method Replace(container: seq<Entry<K, V>>)
      requires Valid() && CanReplace(container)
      modifies this
      ensures Valid() && maxLoadFactor == old(maxLoadFactor)
      ensures multiset(values) <= multiset(container)
      ensures KeySet(values) == KeySet(container)
      ensures values == Deduplicated(container, 0)
      ensures forall m: nat | m <= |container| && DistinctKeys(container[..m]) :: container[..m] <= values
      ensures DistinctKeys(container) ==> values == container
      ensures forall s: nat | ShiftsFor(|container|, maxLoadFactor, s) ::
                |buckets| == if s < old(shifts) then NumBuckets(s) else old(|buckets|)
    {
      hide Index, Indexed, Covers, KeySet, DistinctKeys, Pow2, NumBuckets, BucketLimit, GoodGeometry, ShiftsFor, Fits;
      hide Deduplicated, HasKey;
      var s := CalcShiftsForSize(|container|);
      GeometryOfTable();
      var n := |buckets|;
      if s < shifts {
        shifts := s;
        n := NumBuckets(s);
        maxBucketCapacity := BucketLimit(n, maxLoadFactor);
      }
      GeometryOfShifts(hash, shifts);
      ClearBuckets(n);
      IndexPrefix(G(), values, container, buckets, pos, 0);
      values := container;
      StartsIndexed();
      var valueIdx := 0;
      while valueIdx != |values|
        invariant valueIdx <= |values| <= |container| && Indexed(valueIdx) && Limits() && |buckets| == n
                  && maxLoadFactor == old(maxLoadFactor)
        invariant DistinctKeys(values[..valueIdx])
        invariant multiset(values) <= multiset(container)
        invariant KeySet(values) == KeySet(container) && Fits(G(), KeySet(container), n)
        invariant Deduplicated(values, valueIdx) == Deduplicated(container, 0)
        decreases |values| - valueIdx
      {
        DeduplicatedStep(values, valueIdx);
        var found := IndexNext(valueIdx);
        if !found {
          valueIdx := valueIdx + 1;
        }
      }
      AllIndexed();
      DeduplicatedStep(values, valueIdx);
      DistinctStay(container);
      OnlyShifts(|container|, maxLoadFactor, s);
    }

    /** Indexes the value at `m` unless its key is indexed already; then the last value takes its place. */
    method IndexNext(m: nat) returns (found: bool)
      requires Indexed(m) && m < |values| && DistinctKeys(values[..m]) && Fits(G(), KeySet(values), |buckets|)
      modifies this`values, this`buckets, this`pos
      ensures |buckets| == old(|buckets|)
      ensures found <==> HasKey(old(values)[..m], old(values)[m].key)
      ensures !found ==> Indexed(m + 1) && values == old(values) && DistinctKeys(values[..m + 1])
      ensures found ==> Indexed(m) && values == SwapRemove(old(values), m) && values[..m] == old(values)[..m]
      ensures KeySet(values) == KeySet(old(values))
      ensures multiset(values) <= multiset(old(values))
    {
      hide *;
      ghost var g, n, was, at, before := G(), |buckets|, buckets, pos, values;
      var key := values[m].key;
      Facts(m);
      ghost var e := EmptyAhead(buckets, pos, Home(g, key), 0);
      ProbeStarts(g, values, buckets, pos, key);
      HashParts(key);
      WantedStarts(g, key);
      var h := hash(key);
      var df: nat := DistAndFingerprintFromHash(h);
      var b: nat := BucketIdxFromHash(h);
      ghost var j: nat := 0;
      while true
        invariant Indexed(m) && values == before && buckets == was && pos == at && G() == g && j < n && b < n && j <= e
        invariant Probed(g, values, buckets, key, j, df, b) && Reached(g, buckets, key, j, b) && df == Wanted(g, key, j)
        decreases n - j
      {
        if df > buckets[b].df {
          StopMeansAbsent(g, values, buckets, pos, key, j, df, b);
          PrefixGrowsDistinct(values, pos, m);
          PrefixLacks(values, pos, m);
          PlaceAndShiftUp(df, m, b, j, m);
          PrefixFits(g, values, m + 1, n);
          IndexedMade(m + 1);
          return false;
        }
        var hit := MatchesAt(key, df, b, m, j);
        if hit {
          DuplicateDropped(values, m, buckets[b].idx);
          PrefixHas(values, m, buckets[b].idx);
          SwapRemoveIs(values, m);
          IndexPrefix(g, values, SwapRemove(values, m), buckets, pos, m);
          if m != |values| - 1 {
            values := values[m := values[|values| - 1]];
          }
          values := values[..|values| - 1];
          StillIndexed(m);
          return true;
        }
        NotAtEmpty(g, buckets, key, j, b, e);
        ProbeAdvances(g, values, buckets, key, j, df, b);
        ReachedNext(g, buckets, key, j, b);
        df, b := DistInc(df), Next(b, |buckets|);
        j := j + 1;
      }
    }

    lemma StillIndexed(m: nat)
      requires Index(G(), values, buckets, pos) && Covers(pos, m) && m <= |values| && m < |buckets|
      requires ShortDistances(buckets)
      ensures Indexed(m)
    {
    }

    lemma IndexedMade(m: nat)
      requires Index(G(), values, buckets, pos) && Covers(pos, m) && m <= |values| && m < |buckets|
      requires DistinctKeys(values[..m]) && Fits(G(), KeySet(values[..m]), |buckets|)
      ensures Indexed(m)
    {
      hide Index, Covers, DistinctKeys, KeySet, Spread, ShortDistances;
      ShortIffSpread(G(), values, buckets, pos, m);
    }

    lemma GeometryOfTable()
      requires Valid()
      ensures 32 <= shifts <= 62 && |buckets| == NumBuckets(shifts)
    {
    }

    lemma StartsIndexed()
      requires Index(G(), values, buckets, pos) && Covers(pos, 0) && |buckets| > 0 && ShortDistances(buckets)
      ensures Indexed(0)
      ensures DistinctKeys(values[..0])
    {
    }

    lemma AllIndexed()
      requires Indexed(|values|) && DistinctKeys(values[..|values|]) && Limits()
      ensures Valid()
    {
      assert values[..|values|] == values;
    }

    /** An empty table with four buckets. */
    constructor (hash: K -> Word64)
      ensures Valid() && values == [] && this.hash == hash && |buckets| == 4 && maxLoadFactor == 0.8
    {
      this.hash := hash;
      values := [];
      shifts := 62;
      maxLoadFactor := DEFAULT_MAX_LOAD_FACTOR;
      maxBucketCapacity := BucketLimit(NumBuckets(62), DEFAULT_MAX_LOAD_FACTOR);
      buckets := [];
      pos := map[];
      new;
      assert NumBuckets(62) == 4 by { WordPowers(); }
      ClearBuckets(NumBuckets(62));
    }

    /** Sets the load factor and the limit that follows from it. */
    method SetMaxLoadFactor(f: real)
      requires Valid() && 0.0 <= f
      modifies this`maxLoadFactor, this`maxBucketCapacity
      ensures Valid() && maxLoadFactor == f && maxBucketCapacity == BucketLimit(|buckets|, f)
      ensures if |buckets| == TWO_TO_32 then maxBucketCapacity == TWO_TO_32
              else maxBucketCapacity as real <= |buckets| as real * f < maxBucketCapacity as real + 1.0
    {
      hide Index;
      LimitIsShare(|buckets|, f);
      maxLoadFactor := f;
      if |buckets| != TWO_TO_32 {
        maxBucketCapacity := BucketLimit(|buckets|, f);
      }
    }

    lemma ValidFacts()
      requires Valid()
      ensures Indexed(|values|) && DistinctKeys(values) && Limits()
    {
    }

    lemma HashParts(key: K)
      ensures DistAndFingerprintFromHash(hash(key)) == Fingerprint(G(), key)
      ensures BucketIdxFromHash(hash(key)) == Home(G(), key)
    {
    }
  }

  function Least(a: nat, b: nat): (r: nat)
    ensures r <= a && r <= b
  {
    if a < b then a else b
  }

  lemma LeastIs(a: nat, b: nat)
    ensures Least(a, b) == if a < b then a else b
  {
  }

  lemma NotIndexed<K, V>(values: seq<Entry<K, V>>, pos: map<nat, nat>, key: K)
    requires forall i: nat :: i in pos <==> i < |values|
    requires forall i: nat | i in pos :: i < |values| && values[i].key != key
    ensures !HasKey(values, key)
  {
    forall i | 0 <= i < |values|
      ensures values[i].key != key
    {
      assert i in pos;
    }
  }

  lemma WantedStarts<K>(g: Geometry<K>, key: K)
    ensures Wanted(g, key, 0) == Fingerprint(g, key)
  {
  }

  /** A probe that goes on over a bucket at least as far from home is not at the empty bucket. */
  lemma NotAtEmpty<K>(g: Geometry<K>, buckets: seq<Bucket>, key: K, j: nat, b: nat, e: nat)
    requires Reached(g, buckets, key, j, b) && b < |buckets| && buckets[b].df >= Wanted(g, key, j)
    requires e < |buckets| && j <= e && buckets[At(Home(g, key), e, |buckets|)].df == 0
    ensures j < e
    ensures ShortDistances(buckets) ==> j < MAX_STEPS
  {
  }

  lemma ReachedNext<K>(g: Geometry<K>, buckets: seq<Bucket>, key: K, j: nat, b: nat)
    requires Reached(g, buckets, key, j, b) && b < |buckets| && buckets[b].df >= Wanted(g, key, j)
    requires j + 1 < |buckets| && j < MAX_STEPS
    ensures Next(b, |buckets|) < |buckets| && Reached(g, buckets, key, j + 1, Next(b, |buckets|))
    ensures DistInc(Wanted(g, key, j)) == Wanted(g, key, j + 1)
  {
    StepAt(Home(g, key), j, |buckets|);
    NextWanted(g, key, j);
  }

  lemma StopsAtEmpty(buckets: seq<Bucket>, place: nat, k: nat, e: nat)
    requires place < |buckets| && k <= e < |buckets| && buckets[At(place, e, |buckets|)].df == 0
    requires buckets[At(place, k, |buckets|)].df != 0
    ensures k < e
  {
  }

  lemma RunEndsAt(buckets: seq<Bucket>, place: nat, k: nat, e: nat)
    requires place < |buckets| && k <= e < |buckets| && buckets[At(place, k, |buckets|)].df == 0
    requires forall t: nat | t < e :: buckets[At(place, t, |buckets|)].df != 0
    ensures RunOf(buckets, place, k + 1)
  {
  }

  lemma CoversMore(pos: map<nat, nat>, pos': map<nat, nat>, m: nat)
    requires Covers(pos, m) && pos'.Keys == pos.Keys + {m}
    ensures Covers(pos', m + 1)
  {
    forall i: nat
      ensures i in pos' <==> i < m + 1
    {
      assert i in pos'.Keys <==> i in pos.Keys || i == m;
    }
  }

  /** `calc_num_buckets`: at most 2^32. */
  function NumBuckets(shifts: nat): (n: nat)
    requires shifts <= 64
  {
    if shifts < 32 then TWO_TO_32 else Pow2(64 - shifts)
  }

  lemma DoubledGeometry<K>(hash: K -> Word64, shifts: nat, n: nat)
    requires 32 <= shifts <= 61 && n == Pow2(64 - (shifts + 1))
    ensures GoodGeometry(Geometry(hash, shifts), NumBuckets(shifts)) && NumBuckets(shifts) == 2 * n
  {
  }

  lemma SizeAt32(shifts: nat, n: nat)
    requires 32 <= shifts <= 62 && n == Pow2(64 - shifts)
    ensures shifts == 32 ==> n == TWO_TO_32
  {
    Pow2Sum(16, 16);
    assert Pow2(16) == 0x1_0000 by {
      assert Pow2(4) == 16 by { assert Pow2(2) == 4; }
      Pow2Sum(4, 4);
      Pow2Sum(8, 8);
    }
  }

  /** Values added at the end do not disturb the index. */
  lemma IndexGrows<K, V>(g: Geometry<K>, values: seq<Entry<K, V>>, values': seq<Entry<K, V>>, buckets: seq<Bucket>,
      pos: map<nat, nat>)
    requires Index(g, values, buckets, pos) && values <= values'
    ensures Index(g, values', buckets, pos)
  {
    forall b | 0 <= b < |buckets| && buckets[b].df != 0
      ensures Homed(g, values', |buckets|, b, buckets[b])
    {
      assert Homed(g, values, |buckets|, b, buckets[b]);
    }
  }

  lemma IndexSameKeys<K, V>(g: Geometry<K>, values: seq<Entry<K, V>>, values': seq<Entry<K, V>>,
      buckets: seq<Bucket>, pos: map<nat, nat>)
    requires Index(g, values, buckets, pos) && |values| == |values'|
    requires forall i | 0 <= i < |values| :: values[i].key == values'[i].key
    ensures Index(g, values', buckets, pos)
  {
    forall b | 0 <= b < |buckets| && buckets[b].df != 0
      ensures Homed(g, values', |buckets|, b, buckets[b])
    {
      assert Homed(g, values, |buckets|, b, buckets[b]);
    }
  }

  lemma AtStart(b: nat, n: nat)
    requires b < n
    ensures At(b, 0, n) == b
  {
  }

  /** The bucket with a value's index, met at or before the value's own bucket, is that bucket. */
  lemma FoundIndex<K, V>(g: Geometry<K>, values: seq<Entry<K, V>>, buckets: seq<Bucket>, pos: map<nat, nat>, i: nat,
      t: nat, d: nat)
    requires Index(g, values, buckets, pos) && i in pos && i < |values| && Home(g, values[i].key) < |buckets|
    requires t <= d < |buckets| && buckets[At(Home(g, values[i].key), t, |buckets|)].idx == i
    requires forall s: nat | s <= d :: buckets[At(Home(g, values[i].key), s, |buckets|)].df >= Wanted(g, values[i].key, s)
    ensures pos[i] == At(Home(g, values[i].key), t, |buckets|)
  {
    IndexAt(g, values, buckets, pos, At(Home(g, values[i].key), t, |buckets|));
  }

  lemma EmptyIsLater(buckets: seq<Bucket>, place: nat, e: nat)
    requires place < |buckets| && buckets[place].df != 0 && e < |buckets| && buckets[At(place, e, |buckets|)].df == 0
    ensures 0 < e
  {
  }

  lemma StopsBeforeEmpty(buckets: seq<Bucket>, place: nat, k: nat, e: nat)
    requires place < |buckets| && k < e < |buckets| && buckets[At(place, e, |buckets|)].df == 0
    requires buckets[At(place, k + 1, |buckets|)].df >= DIST_INC * 2
    ensures k + 1 < e
  {
  }

  lemma TailEndsAt(buckets: seq<Bucket>, place: nat, k: nat)
    requires place < |buckets| && k + 1 < |buckets| && buckets[At(place, k + 1, |buckets|)].df < DIST_INC * 2
    requires forall t: nat | 1 <= t <= k :: buckets[At(place, t, |buckets|)].df >= DIST_INC * 2
    ensures TailOf(buckets, place, k)
  {
  }

  lemma ErasedIsShort(buckets: seq<Bucket>, place: nat, k: nat)
    requires ShortDistances(buckets) && Narrow(buckets) && place < |buckets| && k < |buckets| && TailOf(buckets, place, k)
    ensures ShortDistances(Erased(buckets, place, k))
  {
    forall b | 0 <= b < |buckets|
      ensures Erased(buckets, place, k)[b].df + DIST_INC < TWO_TO_32
    {
      hide Erased, TailOf;
      ErasedAt(buckets, place, k, b);
      RingSteps(place, b, |buckets|);
      TailAt(buckets, place, k, Next(b, |buckets|));
    }
  }

  lemma ReindexedIsShort(buckets: seq<Bucket>, b: nat, i: nat)
    requires ShortDistances(buckets) && b < |buckets|
    ensures ShortDistances(buckets[b := buckets[b].(idx := i)])
  {
  }

  lemma ErasedIs(buckets: seq<Bucket>, place: nat, k: nat)
    requires place < |buckets| && k < |buckets| && Narrow(buckets)
    ensures At(place, k, |buckets|) < |buckets|
    ensures Erased(buckets, place, k) == ShiftedDown(buckets, place, k)[At(place, k, |buckets|) := Bucket(0, 0)]
  {
  }

  /** Buckets strictly further from home than the probe cannot match it. */
  lemma ReachedProbed<K, V>(g: Geometry<K>, values: seq<Entry<K, V>>, buckets: seq<Bucket>, pos: map<nat, nat>,
      key: K, j: nat, b: nat)
    requires Passed(g, buckets, key, j) && Reached(g, buckets, key, j, b)
    ensures Probed(g, values, buckets, key, j, Wanted(g, key, j), b)
  {
  }

  /** The buckets before step `j` are strictly further from home than the probe. */
  ghost predicate Passed<K>(g: Geometry<K>, buckets: seq<Bucket>, key: K, j: nat) {
    && Home(g, key) < |buckets| && j <= |buckets|
    && forall t: nat | t < j :: buckets[At(Home(g, key), t, |buckets|)].df > Wanted(g, key, t)
  }

  lemma PassedStarts<K>(g: Geometry<K>, buckets: seq<Bucket>, key: K)
    requires Home(g, key) < |buckets|
    ensures Passed(g, buckets, key, 0)
  {
  }

  lemma PassedNext<K>(g: Geometry<K>, buckets: seq<Bucket>, key: K, j: nat, b: nat)
    requires Passed(g, buckets, key, j) && Reached(g, buckets, key, j, b) && b < |buckets|
    requires buckets[b].df > Wanted(g, key, j)
    ensures Passed(g, buckets, key, j + 1)
  {
  }

  lemma NotFarther<K, V>(g: Geometry<K>, values: seq<Entry<K, V>>, buckets: seq<Bucket>, key: K, j: nat, df: nat, b: nat)
    requires Ordered(buckets) && Probed(g, values, buckets, key, j, df, b) && b < |buckets| && buckets[b].df == df
    requires j < MAX_STEPS
    ensures Next(b, |buckets|) < |buckets| && buckets[Next(b, |buckets|)].df <= DistInc(df) && df > 0
  {
    OrderedAt(buckets, b);
    NextWanted(g, key, j);
  }

  /** The limit is the load factor's share of the buckets, rounded down; the largest bucket array has all of them. */
  lemma LimitIsShare(n: nat, f: real)
    ensures if n == TWO_TO_32 then BucketLimit(n, f) == n
            else BucketLimit(n, f) as real <= n as real * f < BucketLimit(n, f) as real + 1.0
  {
  }

  /** So is the load by which a size is given its buckets. */
  lemma LoadIsShare(shifts: nat, f: real)
    requires shifts <= 64
    ensures LoadOf(shifts, f) as real <= NumBuckets(shifts) as real * f < LoadOf(shifts, f) as real + 1.0
  {
  }

  function LoadOf(shifts: nat, f: real): int
    requires shifts <= 64
  {
    (NumBuckets(shifts) as real * f).Floor
  }

  lemma LoadBelow(n: nat, f: real)
    requires 0.0 <= f < 1.0 && 0 < n
    ensures (n as real * f).Floor < n
  {
    var x := n as real * f;
    assert n as real * (1.0 - f) > 0.0;
    assert x < n as real;
  }

  lemma LoadIsBelow(shifts: nat, f: real)
    requires 32 <= shifts <= 62 && 0.0 <= f < 1.0
    ensures LoadOf(shifts, f) < NumBuckets(shifts)
  {
    LoadBelow(NumBuckets(shifts), f);
  }

  /** One value more than a table holds, and the limit of a load factor below one. */
  lemma RoomBelowLimit(shifts: nat, f: real, m: nat)
    requires 32 <= shifts <= 62 && 0.0 <= f < 1.0 && m < NumBuckets(shifts) && m + 1 < TWO_TO_32
    ensures var n := NumBuckets(shifts);
            if m + 1 > BucketLimit(n, f) then shifts > 32 && m + 1 < 2 * n else m + 1 < n
  {
    SizeAt32(shifts, NumBuckets(shifts));
    LoadBelow(NumBuckets(shifts), f);
  }

  /** The first of the shifts from 62 down whose load holds so many values, or zero. */
  ghost predicate ShiftsFor(size: nat, f: real, s: nat) {
    && s <= 62 && (s > 0 ==> LoadOf(s, f) >= size)
    && forall x: nat | s < x <= 62 :: LoadOf(x, f) < size
  }

  lemma ShiftsAtLeast(size: nat, f: real, s: nat)
    requires ShiftsFor(size, f, s) && size <= (TWO_TO_32 as real * f).Floor
    ensures 32 <= s <= 62 && size <= LoadOf(s, f)
  {
    WordPowers();
    assert LoadOf(32, f) >= size;
  }

  lemma {:induction false} FewerBuckets(a: nat, b: nat)
    requires 32 <= a <= b <= 64
    ensures 0 < NumBuckets(b) <= NumBuckets(a)
    decreases b - a
  {
    if a < b {
      FewerBuckets(a, b - 1);
    }
  }

  lemma GeometryOfShifts<K>(hash: K -> Word64, shifts: nat)
    requires 32 <= shifts <= 62
    ensures GoodGeometry(Geometry(hash, shifts), NumBuckets(shifts)) && NumBuckets(shifts) > 0
  {
  }

  lemma IndexPrefix<K, V>(g: Geometry<K>, values: seq<Entry<K, V>>, values': seq<Entry<K, V>>, buckets: seq<Bucket>,
      pos: map<nat, nat>, m: nat)
    requires Index(g, values, buckets, pos) && Covers(pos, m) && m <= |values| && m <= |values'|
             && values[..m] == values'[..m]
    ensures Index(g, values', buckets, pos)
  {
    forall b | 0 <= b < |buckets| && buckets[b].df != 0
      ensures Homed(g, values', |buckets|, b, buckets[b])
    {
      assert Homed(g, values, |buckets|, b, buckets[b]);
      var i := buckets[b].idx;
      assert values[..m][i] == values'[..m][i];
    }
  }

  lemma PrefixDistinct<K, V>(values: seq<Entry<K, V>>, m: nat)
    requires m <= |values| && DistinctKeys(values)
    ensures DistinctKeys(values[..m])
  {
  }

  lemma PrefixGrowsDistinct<K, V>(values: seq<Entry<K, V>>, pos: map<nat, nat>, m: nat)
    requires m < |values| && DistinctKeys(values[..m])
    requires forall i: nat :: i in pos <==> i < m
    requires forall i: nat | i in pos :: i < |values| && values[i].key != values[m].key
    ensures DistinctKeys(values[..m + 1])
  {
    var p := values[..m + 1];
    forall i, j | 0 <= i < j < |p|
      ensures p[i].key != p[j].key
    {
      if j < m {
        assert values[..m][i] == p[i] && values[..m][j] == p[j];
      } else {
        assert i in pos;
      }
    }
  }

  lemma PrefixLacks<K, V>(values: seq<Entry<K, V>>, pos: map<nat, nat>, m: nat)
    requires m < |values| && forall i: nat :: i in pos <==> i < m
    requires forall i: nat | i in pos :: i < |values| && values[i].key != values[m].key
    ensures !HasKey(values[..m], values[m].key)
  {
    forall i | 0 <= i < m
      ensures values[..m][i].key != values[m].key
    {
      assert i in pos;
    }
  }

  lemma PrefixHas<K, V>(values: seq<Entry<K, V>>, m: nat, i: nat)
    requires i < m < |values| && values[i].key == values[m].key
    ensures HasKey(values[..m], values[m].key)
  {
    assert values[..m][i] == values[i];
  }

  lemma DeduplicatedStep<K, V>(values: seq<Entry<K, V>>, m: nat)
    requires m <= |values|
    ensures Deduplicated(values, m) == if m == |values| then values
            else if HasKey(values[..m], values[m].key) then Deduplicated(SwapRemove(values, m), m)
            else Deduplicated(values, m + 1)
  {
  }

  lemma OnlyShifts(size: nat, f: real, s: nat)
    requires ShiftsFor(size, f, s)
    ensures forall x: nat | ShiftsFor(size, f, x) :: x == s
  {
    forall x: nat | ShiftsFor(size, f, x)
      ensures x == s
    {
      var a, b := LoadOf(s, f), LoadOf(x, f);
    }
  }

  /** Dropping a value whose key occurs earlier loses no key. */
  lemma DuplicateDropped<K, V>(values: seq<Entry<K, V>>, m: nat, i: nat)
    requires i < m < |values| && values[i].key == values[m].key
    ensures m <= |SwapRemove(values, m)| && SwapRemove(values, m)[..m] == values[..m]
    ensures KeySet(SwapRemove(values, m)) == KeySet(values)
    ensures multiset(SwapRemove(values, m)) <= multiset(values)
  {
    var r, last := SwapRemove(values, m), |values| - 1;
    SwapRemoveMultiset(values, m);
    assert forall x | 0 <= x < last :: r[x] == if x == m then values[last] else values[x];
    forall x | 0 <= x < |values|
      ensures values[x].key in KeySet(r)
    {
      var y := if x == m then i else if x == last then m else x;
      assert r[y].key == values[x].key;
    }
  }

  lemma UnequalNoMatch<K, V>(g: Geometry<K>, values: seq<Entry<K, V>>, buckets: seq<Bucket>, key: K, j: nat, df: nat, b: nat)
    requires Probed(g, values, buckets, key, j, df, b) && b < |buckets| && buckets[b].df != df
    ensures !Match(g, values, key, j, buckets[b])
  {
  }

  /** A probe that goes on has not come to the empty bucket yet. */
  lemma NotYetEmpty<K, V>(g: Geometry<K>, values: seq<Entry<K, V>>, buckets: seq<Bucket>, key: K, j: nat, df: nat,
      b: nat, e: nat)
    requires Ordered(buckets) && Probed(g, values, buckets, key, j, df, b) && buckets[b].df >= df
    requires e < |buckets| && buckets[At(Home(g, key), e, |buckets|)].df == 0
    ensures j < e
    ensures ShortDistances(buckets) ==> j < MAX_STEPS
  {
    if e <= j {
      RicherFrom(g, buckets, key, e, j);
    }
  }

  /** `static_cast<value_idx_type>(float(num_buckets) * max_load_factor())`, or every bucket of the largest array. */
  function BucketLimit(n: nat, f: real): int {
    if n == TWO_TO_32 then TWO_TO_32 else (n as real * f).Floor
  }
}
