/** When the distances of a robin-hood index fit their 24 bits: a condition on the homes of the keys alone. */
module BucketSpread {
  import opened Arithmetic
  import opened Entries
  import opened DenseValues
  import opened RobinHood

  /** A distance fits, with one to spare, while a bucket is fewer than so many steps from its home. */
  const MAX_STEPS: nat := 0xFF_FFFE

  /** The keys with a home among the `l` buckets from `w` on. */
  ghost function Settlers<K>(g: Geometry<K>, keys: set<K>, n: nat, w: nat, l: nat): set<K>
    requires w < n
  {
    set k | k in keys && Home(g, k) < n && Off(w, Home(g, k), n) < l
  }

  /** No `l` buckets in a row are home to `l + MAX_STEPS` keys. */
  ghost predicate Spread<K>(g: Geometry<K>, keys: set<K>, n: nat) {
    forall w: nat, l: nat | w < n && 1 <= l <= n :: |Settlers(g, keys, n, w, l)| < l + MAX_STEPS
  }

  /** So many keys with these homes can be indexed: a bucket stays empty and every distance fits. */
  ghost predicate Fits<K>(g: Geometry<K>, keys: set<K>, n: nat) {
    |keys| < n && Spread(g, keys, n)
  }

  lemma FewerFit<K>(g: Geometry<K>, keys: set<K>, more: set<K>, n: nat)
    requires keys <= more && Fits(g, more, n)
    ensures Fits(g, keys, n)
  {
    SubsetSize(keys, more);
    forall w: nat, l: nat | w < n && 1 <= l <= n
      ensures |Settlers(g, keys, n, w, l)| < l + MAX_STEPS
    {
      SubsetSize(Settlers(g, keys, n, w, l), Settlers(g, more, n, w, l));
    }
  }

  /** Few keys are spread whatever their homes. */
  lemma FewAreSpread<K>(g: Geometry<K>, keys: set<K>, n: nat)
    requires |keys| <= MAX_STEPS
    ensures Spread(g, keys, n)
  {
    forall w: nat, l: nat | w < n && 1 <= l <= n
      ensures |Settlers(g, keys, n, w, l)| < l + MAX_STEPS
    {
      SubsetSize(Settlers(g, keys, n, w, l), keys);
    }
  }

  // ----- twice the buckets

  lemma HalvedHome<K>(hash: K -> Word64, shifts: nat, key: K)
    requires shifts > 0
    ensures Home(Geometry(hash, shifts), key) == Home(Geometry(hash, shifts - 1), key) / 2
  {
    QuotientHalved(hash(key), Pow2(shifts - 1));
  }

  lemma QuotientHalved(h: nat, p: nat)
    requires p > 0
    ensures h / (2 * p) == h / p / 2
  {
    var q, r := h / p, h % p;
    var half, odd := q / 2, q % 2;
    assert h == q * p + r;
    SplitQuotient(half, odd, p);
    if odd == 0 {
      DivModUnique(h, 2 * p, half, r);
    } else {
      DivModUnique(h, 2 * p, half, p + r);
    }
  }

  lemma SplitQuotient(half: int, odd: int, p: int)
    ensures (2 * half + odd) * p == half * (2 * p) + odd * p
  {
  }

  lemma HalvedOff(w: nat, b: nat, n: nat)
    requires w < 2 * n && b < 2 * n
    ensures w / 2 < n && b / 2 < n && Off(w / 2, b / 2, n) <= (Off(w, b, 2 * n) + 1) / 2
  {
  }

  /** Doubling the buckets keeps keys spread. */
  lemma SpreadDoubles<K>(hash: K -> Word64, shifts: nat, keys: set<K>, n: nat)
    requires shifts > 0 && Spread(Geometry(hash, shifts), keys, n)
    ensures Spread(Geometry(hash, shifts - 1), keys, 2 * n)
  {
    var g, g' := Geometry(hash, shifts), Geometry(hash, shifts - 1);
    forall w: nat, l: nat | w < 2 * n && 1 <= l <= 2 * n
      ensures |Settlers(g', keys, 2 * n, w, l)| < l + MAX_STEPS
    {
      var l' := if l / 2 + 1 <= n then l / 2 + 1 else n;
      forall k | k in Settlers(g', keys, 2 * n, w, l)
        ensures k in Settlers(g, keys, n, w / 2, l')
      {
        HalvedHome(hash, shifts, k);
        HalvedOff(w, Home(g', k), n);
      }
      SubsetSize(Settlers(g', keys, 2 * n, w, l), Settlers(g, keys, n, w / 2, l'));
      assert |Settlers(g, keys, n, w / 2, l')| < l' + MAX_STEPS;
    }
  }

  // ----- counting

  lemma {:induction false} KeysOfIndices<K, V>(values: seq<Entry<K, V>>, m: nat, s: set<nat>)
    requires m <= |values| && DistinctKeys(values[..m]) && forall i | i in s :: i < m
    ensures |set i | i in s :: values[i].key| == |s|
  {
    var keys := set i | i in s :: values[i].key;
    if s == {} {
      assert keys == {};
    } else {
      var x :| x in s;
      var rest := s - {x};
      var others := set i | i in rest :: values[i].key;
      KeysOfIndices(values, m, rest);
      assert forall i | i in s :: i == x || i in rest;
      assert keys == others + {values[x].key};
      forall i | i in rest
        ensures values[i].key != values[x].key
      {
        assert values[..m][i].key != values[..m][x].key;
      }
    }
  }

  lemma PrefixKeys<K, V>(values: seq<Entry<K, V>>, m: nat)
    requires m <= |values| && DistinctKeys(values[..m])
    ensures |KeySet(values[..m])| == m && KeySet(values[..m]) <= KeySet(values)
    ensures forall key :: key in KeySet(values[..m]) <==> exists i :: 0 <= i < m && values[i].key == key
  {
    var s := UpTo(m);
    KeysOfIndices(values, m, s);
    assert KeySet(values[..m]) == set i | i in s :: values[i].key by {
      forall i | i in s
        ensures values[i].key in KeySet(values[..m])
      {
        assert values[..m][i] == values[i];
      }
    }
  }

  ghost function UpTo(m: nat): (s: set<nat>)
    ensures |s| == m && forall i: nat :: i in s <==> i < m
  {
    if m == 0 then {} else UpTo(m - 1) + {m - 1}
  }

  lemma {:induction false} Pigeonhole(s: set<nat>, f: map<nat, nat>, bound: nat)
    requires forall i | i in s :: i in f && f[i] < bound
    requires forall i, j | i in s && j in s && f[i] == f[j] :: i == j
    ensures |s| <= bound
  {
    if i :| i in s && f[i] == bound - 1 {
      Pigeonhole(s - {i}, f, bound - 1);
    } else if s != {} {
      var i :| i in s;
      Pigeonhole(s, f, bound - 1);
    }
  }

  /** The first values of a container whose keys fit. */
  lemma PrefixFits<K, V>(g: Geometry<K>, values: seq<Entry<K, V>>, m: nat, n: nat)
    requires m <= |values| && DistinctKeys(values[..m]) && Fits(g, KeySet(values), n)
    ensures Fits(g, KeySet(values[..m]), n) && m < n
  {
    PrefixKeys(values, m);
    FewerFit(g, KeySet(values[..m]), KeySet(values), n);
  }

  // ----- a block of used buckets

  function Steps(c: Bucket): int {
    c.df / DIST_INC - 1
  }

  /** The buckets up to `t` steps after `w` are in use, and the one before `w` is empty. */
  ghost predicate Block(buckets: seq<Bucket>, w: nat, t: nat) {
    && w < |buckets| && t < |buckets|
    && buckets[Prev(w, |buckets|)].df == 0
    && forall s: nat | s <= t :: buckets[At(w, s, |buckets|)].df != 0
  }

  lemma {:induction false} BlockStart(buckets: seq<Bucket>, pos: map<nat, nat>, w: nat, t: nat) returns (w': nat, t': nat)
    requires Matched(buckets, pos) && |pos| < |buckets| && w < |buckets| && t < |buckets|
    requires forall s: nat | s <= t :: buckets[At(w, s, |buckets|)].df != 0
    ensures Block(buckets, w', t') && At(w', t', |buckets|) == At(w, t, |buckets|)
    decreases |buckets| - t
  {
    hide At, Prev, Matched, ValuesFrom;
    PrevAt(w, t, |buckets|);
    if buckets[Prev(w, |buckets|)].df == 0 {
      w', t' := w, t;
    } else {
      RunIsShort(buckets, pos, w, t + 1);
      SubsetSize(ValuesFrom(buckets, w, t + 1), pos.Keys);
      forall s: nat | s <= t + 1
        ensures buckets[At(Prev(w, |buckets|), s, |buckets|)].df != 0
      {
        PrevAt(w, s, |buckets|);
      }
      PrevAt(w, t + 1, |buckets|);
      w', t' := BlockStart(buckets, pos, Prev(w, |buckets|), t + 1);
    }
  }

  lemma PrevAt(w: nat, s: nat, n: nat)
    requires w < n && s < n
    ensures Prev(w, n) < n && At(Prev(w, n), s, n) == if s == 0 then Prev(w, n) else At(w, s - 1, n)
  {
  }

  lemma RingBack(p: nat, d: nat, w: nat, s: nat, n: nat)
    requires p < n && d < n && w < n && s < n && At(p, d, n) == At(w, s, n)
    ensures d <= s ==> Off(w, p, n) == s - d
    ensures d > s ==> At(p, d - s - 1, n) == Prev(w, n)
  {
  }

  /** In a block no value is further from its home than from the start of the block. */
  lemma HomeInBlock<K, V>(g: Geometry<K>, values: seq<Entry<K, V>>, buckets: seq<Bucket>, pos: map<nat, nat>,
      w: nat, t: nat, s: nat)
    requires Index(g, values, buckets, pos) && Block(buckets, w, t) && s <= t
    ensures var c := buckets[At(w, s, |buckets|)];
            && c.df >= DIST_INC && c.idx in pos && c.idx < |values| && 0 <= Steps(c) <= s
            && Home(g, values[c.idx].key) < |buckets|
            && Off(w, Home(g, values[c.idx].key), |buckets|) == s - Steps(c)
  {
    hide Index, Match, Matched, Homed, Off, Prev;
    var n, b := |buckets|, At(w, s, |buckets|);
    IndexAt(g, values, buckets, pos, b);
    var i := buckets[b].idx;
    var d := ProbeMeets(g, values, buckets, pos, i);
    StepsIs(g, values, values[i].key, d, buckets[b]);
    RingBack(Home(g, values[i].key), d, w, s, n);
  }

  lemma StepsIs<K, V>(g: Geometry<K>, values: seq<Entry<K, V>>, key: K, d: nat, c: Bucket)
    requires Match(g, values, key, d, c)
    ensures Steps(c) == d
  {
  }

  /** Along a block the homes ascend. */
  lemma {:induction false} HomesAscend<K, V>(g: Geometry<K>, values: seq<Entry<K, V>>, buckets: seq<Bucket>,
      pos: map<nat, nat>, w: nat, t: nat, s: nat)
    requires Index(g, values, buckets, pos) && Block(buckets, w, t) && s <= t
    ensures s - Steps(buckets[At(w, s, |buckets|)]) <= t - Steps(buckets[At(w, t, |buckets|)])
    decreases t
  {
    hide *;
    BlockIs(buckets, w, t);
    if s < t {
      BlockShorter(buckets, w, t);
      IndexFacts(g, values, buckets, pos);
      StepsAre(buckets[At(w, t - 1, |buckets|)]);
      StepsAre(buckets[At(w, t, |buckets|)]);
      HomesAscend(g, values, buckets, pos, w, t - 1, s);
      StepAt(w, t - 1, |buckets|);
      HomeInBlock(g, values, buckets, pos, w, t, s);
      HomeInBlock(g, values, buckets, pos, w, t, t);
      HomeInBlock(g, values, buckets, pos, w, t, t - 1);
      OrderedAt(buckets, At(w, t - 1, |buckets|));
      OneStepMore(buckets[At(w, t - 1, |buckets|)].df, buckets[At(w, t, |buckets|)].df);
    }
  }

  lemma BlockShorter(buckets: seq<Bucket>, w: nat, t: nat)
    requires Block(buckets, w, t) && t > 0
    ensures Block(buckets, w, t - 1)
  {
  }

  lemma OneStepMore(df: nat, next: nat)
    requires InOrder(df, next) && df >= DIST_INC
    ensures next / DIST_INC - 1 <= 0 || next / DIST_INC <= df / DIST_INC + 1
  {
  }

  /** So many values with homes among these buckets, so many keys. */
  lemma SettlersOf<K, V>(g: Geometry<K>, values: seq<Entry<K, V>>, m: nat, s: set<nat>, n: nat, w: nat, l: nat)
    requires m <= |values| && DistinctKeys(values[..m]) && w < n
    requires forall i | i in s :: i < m && Home(g, values[i].key) < n && Off(w, Home(g, values[i].key), n) < l
    ensures |Settlers(g, KeySet(values[..m]), n, w, l)| >= |s|
  {
    hide DistinctKeys, Off, Home;
    var keys := set i | i in s :: values[i].key;
    KeysOfIndices(values, m, s);
    forall i | i in s
      ensures values[i].key in KeySet(values[..m])
    {
      assert values[..m][i] == values[i];
    }
    SubsetSize(keys, Settlers(g, KeySet(values[..m]), n, w, l));
  }

  lemma SettlesInBlock<K, V>(g: Geometry<K>, values: seq<Entry<K, V>>, buckets: seq<Bucket>, pos: map<nat, nat>,
      w: nat, t: nat, x: nat)
    requires Index(g, values, buckets, pos) && Block(buckets, w, t) && x <= t
    ensures var i := buckets[At(w, x, |buckets|)].idx;
            && i < |values| && Home(g, values[i].key) < |buckets|
            && Off(w, Home(g, values[i].key), |buckets|) < t + 1 - Steps(buckets[At(w, t, |buckets|)])
  {
    hide *;
    BlockIs(buckets, w, t);
    HomeInBlock(g, values, buckets, pos, w, t, x);
    HomesAscend(g, values, buckets, pos, w, t, x);
  }

  /** The keys of a block's values settle from its start up to the home of the last. */
  lemma BlockSettles<K, V>(g: Geometry<K>, values: seq<Entry<K, V>>, buckets: seq<Bucket>, pos: map<nat, nat>,
      m: nat, w: nat, t: nat)
    requires Index(g, values, buckets, pos) && Covers(pos, m) && m <= |values| && DistinctKeys(values[..m])
    requires Block(buckets, w, t)
    ensures 0 <= Steps(buckets[At(w, t, |buckets|)]) <= t
    ensures |Settlers(g, KeySet(values[..m]), |buckets|, w, t + 1 - Steps(buckets[At(w, t, |buckets|)]))| >= t + 1
  {
    hide *;
    BlockIs(buckets, w, t);
    IndexFacts(g, values, buckets, pos);
    HomeInBlock(g, values, buckets, pos, w, t, t);
    RunIsShort(buckets, pos, w, t + 1);
    var s, l := ValuesFrom(buckets, w, t + 1), t + 1 - Steps(buckets[At(w, t, |buckets|)]);
    forall i | i in s
      ensures i < m && i < |values| && Home(g, values[i].key) < |buckets|
      ensures Off(w, Home(g, values[i].key), |buckets|) < l
    {
      ValuesFromMember(buckets, w, t + 1, i);
      var x: nat :| x < t + 1 && buckets[At(w, x, |buckets|)].idx == i;
      SettlesInBlock(g, values, buckets, pos, w, t, x);
      CoversAt(pos, m, i);
    }
    SettlersOf(g, values, m, s, |buckets|, w, l);
  }

  lemma BlockIs(buckets: seq<Bucket>, w: nat, t: nat)
    requires Block(buckets, w, t)
    ensures w < |buckets| && t < |buckets| && forall s: nat | s <= t :: buckets[At(w, s, |buckets|)].df != 0
  {
  }

  lemma FewSteps(df: nat)
    ensures df / DIST_INC - 1 < MAX_STEPS <==> df + DIST_INC < TWO_TO_32
  {
  }

  lemma SpreadIsShort<K, V>(g: Geometry<K>, values: seq<Entry<K, V>>, buckets: seq<Bucket>, pos: map<nat, nat>, m: nat)
    requires Index(g, values, buckets, pos) && Covers(pos, m) && m <= |values| && m < |buckets|
    requires DistinctKeys(values[..m]) && Spread(g, KeySet(values[..m]), |buckets|)
    ensures ShortDistances(buckets)
  {
    hide Index, Covers, DistinctKeys, Block, Settlers, Matched;
    var n := |buckets|;
    CoversSize(pos, m);
    IndexFacts(g, values, buckets, pos);
    forall b | 0 <= b < n
      ensures buckets[b].df + DIST_INC < TWO_TO_32
    {
      if buckets[b].df != 0 {
        assert At(b, 0, n) == b;
        var w, t := BlockStart(buckets, pos, b, 0);
        BlockIs(buckets, w, t);
        BlockSettles(g, values, buckets, pos, m, w, t);
        var l := t + 1 - Steps(buckets[b]);
        assert |Settlers(g, KeySet(values[..m]), n, w, l)| < l + MAX_STEPS;
        FewSteps(buckets[b].df);
      }
    }
  }

  // ----- the other direction

  /** `x` steps after `w`, as many times round the ring as it takes. */
  function Around(w: nat, x: nat, n: nat): int {
    if w + x < n then w + x else if w + x < 2 * n then w + x - n else w + x - 2 * n
  }

  lemma LandsAt(w: nat, p: nat, d: nat, n: nat)
    requires w < n && p < n && d < n
    ensures At(p, d, n) == Around(w, Off(w, p, n) + d, n) < n
  {
  }

  /** Where a value landed, counted from `w` on. */
  lemma Landing<K, V>(g: Geometry<K>, values: seq<Entry<K, V>>, buckets: seq<Bucket>, pos: map<nat, nat>, w: nat, i: nat)
    requires Index(g, values, buckets, pos) && i in pos && w < |buckets| && ShortDistances(buckets)
    ensures i < |values| && Home(g, values[i].key) < |buckets| && pos[i] < |buckets|
    ensures 0 <= Steps(buckets[pos[i]]) < MAX_STEPS
    ensures pos[i] == Around(w, Off(w, Home(g, values[i].key), |buckets|) + Steps(buckets[pos[i]]), |buckets|)
  {
    hide Index, Matched, Homed, Off, Around, Home, Match, Steps;
    var d := ProbeMeets(g, values, buckets, pos, i);
    IndexFacts(g, values, buckets, pos);
    StepsIs(g, values, values[i].key, d, buckets[pos[i]]);
    LandsAt(w, Home(g, values[i].key), d, |buckets|);
    FewSteps(buckets[pos[i]].df);
    StepsAre(buckets[pos[i]]);
  }

  lemma StepsAre(c: Bucket)
    ensures Steps(c) == c.df / DIST_INC - 1
  {
  }

  lemma ShortIsSpread<K, V>(g: Geometry<K>, values: seq<Entry<K, V>>, buckets: seq<Bucket>, pos: map<nat, nat>, m: nat)
    requires Index(g, values, buckets, pos) && Covers(pos, m) && m <= |values|
    requires DistinctKeys(values[..m]) && ShortDistances(buckets)
    ensures Spread(g, KeySet(values[..m]), |buckets|)
  {
    hide *;
    var n, keys := |buckets|, KeySet(values[..m]);
    forall w: nat, l: nat | w < n && 1 <= l <= n
      ensures |Settlers(g, keys, n, w, l)| < l + MAX_STEPS
    {
      FewSettle(g, values, buckets, pos, m, w, l);
    }
    SpreadIs(g, keys, n);
  }

  lemma SpreadIs<K>(g: Geometry<K>, keys: set<K>, n: nat)
    ensures Spread(g, keys, n) <==>
            forall w: nat, l: nat | w < n && 1 <= l <= n :: |Settlers(g, keys, n, w, l)| < l + MAX_STEPS
  {
  }

  lemma FewSettle<K, V>(g: Geometry<K>, values: seq<Entry<K, V>>, buckets: seq<Bucket>, pos: map<nat, nat>, m: nat,
      w: nat, l: nat)
    requires Index(g, values, buckets, pos) && Covers(pos, m) && m <= |values|
    requires DistinctKeys(values[..m]) && ShortDistances(buckets) && w < |buckets| && 1 <= l
    ensures |Settlers(g, KeySet(values[..m]), |buckets|, w, l)| < l + MAX_STEPS
  {
    hide Index, Matched, Homed, Off, Around, Home, Steps, DistinctKeys, ShortDistances;
    var n, keys := |buckets|, KeySet(values[..m]);
    var settlers := Settlers(g, keys, n, w, l);
    PrefixKeys(values, m);
    var s := set i: nat | i < m && values[i].key in settlers;
    KeysOfIndices(values, m, s);
    assert (set i | i in s :: values[i].key) == settlers;
    IndexFacts(g, values, buckets, pos);
    var f := map i: nat | i in s && i in pos :: LandingOf(g, values, buckets, pos, w, i);
    forall i | i in s
      ensures i in f && f[i] < l + MAX_STEPS - 1 && pos[i] == Around(w, f[i], n)
    {
      Landing(g, values, buckets, pos, w, i);
    }
    Pigeonhole(s, f, l + MAX_STEPS - 1);
  }

  ghost function LandingOf<K, V>(g: Geometry<K>, values: seq<Entry<K, V>>, buckets: seq<Bucket>, pos: map<nat, nat>,
      w: nat, i: nat): nat
  {
    if i in pos && i < |values| && Home(g, values[i].key) < |buckets| && w < |buckets| && pos[i] < |buckets|
       && Steps(buckets[pos[i]]) >= 0
    then Off(w, Home(g, values[i].key), |buckets|) + Steps(buckets[pos[i]]) else 0
  }

  /** The distances of an index fit if and only if its keys are spread: the homes alone decide. */
  lemma ShortIffSpread<K, V>(g: Geometry<K>, values: seq<Entry<K, V>>, buckets: seq<Bucket>, pos: map<nat, nat>, m: nat)
    requires Index(g, values, buckets, pos) && Covers(pos, m) && m <= |values| && m < |buckets|
    requires DistinctKeys(values[..m])
    ensures ShortDistances(buckets) <==> Spread(g, KeySet(values[..m]), |buckets|)
  {
    if ShortDistances(buckets) {
      ShortIsSpread(g, values, buckets, pos, m);
    } else if Spread(g, KeySet(values[..m]), |buckets|) {
      SpreadIsShort(g, values, buckets, pos, m);
    }
  }
}
