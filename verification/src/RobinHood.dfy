/** The robin-hood bucket index of unordered_dense as values: its ordering invariant, exact early-exit lookup,
    and what shifting buckets up or down keeps. */
module RobinHood {
  import opened Arithmetic
  import opened Entries
  import opened DenseValues

  const DIST_INC: nat := 256

  /** Distance plus one in the upper three bytes and a hash byte below; the index of the value it stands for. */
  datatype Bucket = Bucket(df: nat, idx: nat)

  /** The hash function and the shift that turns a hash into one of 2^(64 - shifts) buckets. */
  datatype Geometry<!K> = Geometry(hash: K -> Word64, shifts: nat)

  ghost predicate GoodGeometry<K>(g: Geometry<K>, n: nat) {
    32 <= g.shifts <= 62 && n == Pow2(64 - g.shifts)
  }

  function Home<K>(g: Geometry<K>, key: K): nat {
    ShiftRight(g.hash(key), g.shifts)
  }

  function ShiftRight(h: nat, s: nat): nat {
    QuotientNonNegative(h, Pow2(s));
    h / Pow2(s)
  }

  function Fingerprint<K>(g: Geometry<K>, key: K): (df: nat)
    ensures DIST_INC <= df < 2 * DIST_INC
  {
    DIST_INC + g.hash(key) % DIST_INC
  }

  /** `dist_inc | (hash & fingerprint_mask)`. */
  lemma FingerprintIsLowByte<K>(g: Geometry<K>, key: K)
    ensures Fingerprint(g, key) == DIST_INC + BitAnd(g.hash(key), DIST_INC - 1)
  {
    assert Pow2(8) == DIST_INC by { WordPowers(); Pow2Sum(4, 4); }
    MaskIsModulo(g.hash(key), 8);
  }

  // 32-bit additions and subtractions
  function DistInc(df: nat): nat { (df + DIST_INC) % TWO_TO_32 }

  function DistDec(df: nat): nat
    requires df < TWO_TO_32
  {
    (df + TWO_TO_32 - DIST_INC) % TWO_TO_32
  }

  lemma HomeInRange<K>(g: Geometry<K>, n: nat, key: K)
    requires GoodGeometry(g, n)
    ensures Home(g, key) < n && n >= 4
  {
    hide Pow2;
    var s, h := Pow2(g.shifts), g.hash(key);
    Pow2Sum(64 - g.shifts, g.shifts);
    WordPowers();
    assert n * s == TWO_TO_64;
    QuotientBelow(h, s, n);
    Pow2Sum(2, 62 - g.shifts);
    WordPowers();
    MulMono(1, Pow2(62 - g.shifts), 4);
  }

  lemma QuotientBelow(h: nat, s: nat, n: nat)
    requires s > 0 && h < n * s
    ensures h / s < n
  {
    var q := h / s;
    assert h == s * q + h % s;
    assert s * (q - n) == s * q - n * s;
    MultipleBounds(s, q - n);
  }

  // ----- the ring of buckets

  function Next(b: nat, n: nat): nat { if b + 1 == n then 0 else b + 1 }

  function Prev(b: nat, n: nat): nat
    requires n > 0
  {
    if b == 0 then n - 1 else b - 1
  }

  /** The bucket `i` steps after `p`. */
  function At(p: nat, i: nat, n: nat): (b: nat)
    requires p < n && i < n
    ensures b < n
  {
    if p + i < n then p + i else p + i - n
  }

  /** The number of steps from `p` to `b`. */
  function Off(p: nat, b: nat, n: nat): nat
    requires p < n && b < n
  {
    if p <= b then b - p else b + n - p
  }

  // ----- the invariant

  /** The bucket lies as many steps after its key's home as it says, with the key's fingerprint. */
  ghost predicate Homed<K, V>(g: Geometry<K>, values: seq<Entry<K, V>>, n: nat, b: nat, c: Bucket) {
    && c.idx < |values|
    && DIST_INC <= c.df < DIST_INC * n + DIST_INC
    && var key := values[c.idx].key;
    && Home(g, key) < n
    && c.df == Fingerprint(g, key) + DIST_INC * (c.df / DIST_INC - 1)
    && b == At(Home(g, key), c.df / DIST_INC - 1, n)
  }

  /** A bucket is at most one step further from its home than the bucket before it. */
  ghost predicate Ordered(buckets: seq<Bucket>) {
    forall b | 0 <= b < |buckets| ::
      buckets[Next(b, |buckets|)].df < 2 * DIST_INC || buckets[Next(b, |buckets|)].df <= buckets[b].df + DIST_INC
  }

  /** The indexed values and the buckets in use correspond one to one. */
  ghost predicate Matched(buckets: seq<Bucket>, pos: map<nat, nat>) {
    && (forall i | i in pos :: pos[i] < |buckets| && buckets[pos[i]].df != 0 && buckets[pos[i]].idx == i)
    && (forall b | 0 <= b < |buckets| && buckets[b].df != 0 :: buckets[b].idx in pos && pos[buckets[b].idx] == b)
  }

  ghost predicate Index<K, V>(g: Geometry<K>, values: seq<Entry<K, V>>, buckets: seq<Bucket>, pos: map<nat, nat>) {
    && GoodGeometry(g, |buckets|)
    && (forall b | 0 <= b < |buckets| && buckets[b].df != 0 :: Homed(g, values, |buckets|, b, buckets[b]))
    && (forall b | 0 <= b < |buckets| && buckets[b].df == 0 :: buckets[b].idx == 0)
    && Ordered(buckets)
    && Matched(buckets, pos)
  }

  // ----- probing

  /** What the probe for `key` compares with after `j` steps. */
  ghost function Wanted<K>(g: Geometry<K>, key: K, j: nat): nat {
    Fingerprint(g, key) + DIST_INC * j
  }

  /** A bucket that stands for an entry of `key`: the probe's distance and fingerprint, and the key. */
  ghost predicate Match<K, V>(g: Geometry<K>, values: seq<Entry<K, V>>, key: K, j: nat, c: Bucket) {
    c.df == Wanted(g, key, j) && c.idx < |values| && values[c.idx].key == key
  }

  lemma StepAt(p: nat, i: nat, n: nat)
    requires p < n && i + 1 < n
    ensures At(p, i + 1, n) == Next(At(p, i, n), n)
  {
  }

  /** From the home of a stored key up to its bucket, every bucket is at least as far from home as the probe. */
  lemma {:induction false} RunBack<K, V>(g: Geometry<K>, values: seq<Entry<K, V>>, buckets: seq<Bucket>, pos: map<nat, nat>,
      i: nat, t: nat)
    requires Index(g, values, buckets, pos) && i in pos
    requires t <= buckets[pos[i]].df / DIST_INC - 1
    ensures i < |values| && Home(g, values[i].key) < |buckets| && t < |buckets|
    ensures buckets[At(Home(g, values[i].key), t, |buckets|)].df >= Wanted(g, values[i].key, t)
    decreases buckets[pos[i]].df / DIST_INC - t
  {
    var n, c := |buckets|, buckets[pos[i]];
    assert Homed(g, values, n, pos[i], c);
    var d := c.df / DIST_INC - 1;
    if t < d {
      RunBack(g, values, buckets, pos, i, t + 1);
      StepAt(Home(g, values[i].key), t, n);
    }
  }

  /** An indexed value is met by its key's probe, after buckets that are all at least as far from home as the probe. */
  lemma ProbeMeets<K, V>(g: Geometry<K>, values: seq<Entry<K, V>>, buckets: seq<Bucket>, pos: map<nat, nat>, i: nat)
      returns (d: nat)
    requires Index(g, values, buckets, pos) && i in pos
    ensures i < |values| && Home(g, values[i].key) < |buckets| && d < |buckets|
    ensures pos[i] == At(Home(g, values[i].key), d, |buckets|) && buckets[pos[i]].idx == i
    ensures Match(g, values, values[i].key, d, buckets[pos[i]])
    ensures forall t: nat | t <= d ::
              buckets[At(Home(g, values[i].key), t, |buckets|)].df >= Wanted(g, values[i].key, t)
  {
    assert Homed(g, values, |buckets|, pos[i], buckets[pos[i]]);
    d := buckets[pos[i]].df / DIST_INC - 1;
    forall t: nat | t <= d
      ensures buckets[At(Home(g, values[i].key), t, |buckets|)].df >= Wanted(g, values[i].key, t)
    {
      RunBack(g, values, buckets, pos, i, t);
    }
  }

  /** A bucket nearer to its home than the probe stops the lookup: the key is not indexed. */
  lemma RicherMeansAbsent<K, V>(g: Geometry<K>, values: seq<Entry<K, V>>, buckets: seq<Bucket>, pos: map<nat, nat>,
      key: K, j: nat)
    requires Index(g, values, buckets, pos) && Home(g, key) < |buckets| && j < |buckets|
    requires forall t: nat | t < j :: !Match(g, values, key, t, buckets[At(Home(g, key), t, |buckets|)])
    requires buckets[At(Home(g, key), j, |buckets|)].df < Wanted(g, key, j)
    ensures forall i: nat | i in pos :: i < |values| && values[i].key != key
  {
    forall i: nat | i in pos
      ensures i < |values| && values[i].key != key
    {
      var d := ProbeMeets(g, values, buckets, pos, i);
    }
  }

  /** Once the probe has met a nearer bucket, it keeps meeting nearer ones. */
  lemma RicherStays<K>(g: Geometry<K>, buckets: seq<Bucket>, key: K, t: nat)
    requires Ordered(buckets) && Home(g, key) < |buckets| && t + 1 < |buckets|
    requires buckets[At(Home(g, key), t, |buckets|)].df < Wanted(g, key, t)
    ensures buckets[At(Home(g, key), t + 1, |buckets|)].df < Wanted(g, key, t + 1)
  {
    StepAt(Home(g, key), t, |buckets|);
    var b := At(Home(g, key), t, |buckets|);
    assert buckets[Next(b, |buckets|)].df < 2 * DIST_INC || buckets[Next(b, |buckets|)].df <= buckets[b].df + DIST_INC;
  }

  // ----- room

  /** The values of the first `e` buckets from `p`, when none of them is empty. */
  ghost function ValuesFrom(buckets: seq<Bucket>, p: nat, e: nat): (s: set<nat>)
    requires p < |buckets| && e <= |buckets|
  {
    if e == 0 then {} else ValuesFrom(buckets, p, e - 1) + {buckets[At(p, e - 1, |buckets|)].idx}
  }

  lemma {:induction false} ValuesFromMember(buckets: seq<Bucket>, p: nat, e: nat, x: nat)
    requires p < |buckets| && e <= |buckets| && x in ValuesFrom(buckets, p, e)
    ensures exists t: nat :: t < e && buckets[At(p, t, |buckets|)].idx == x
  {
    if x != buckets[At(p, e - 1, |buckets|)].idx {
      ValuesFromMember(buckets, p, e - 1, x);
      var t: nat :| t < e - 1 && buckets[At(p, t, |buckets|)].idx == x;
    }
  }

  lemma {:induction false} RunIsShort(buckets: seq<Bucket>, pos: map<nat, nat>, p: nat, e: nat)
    requires Matched(buckets, pos) && p < |buckets| && e <= |buckets|
    requires forall t: nat | t < e :: buckets[At(p, t, |buckets|)].df != 0
    ensures |ValuesFrom(buckets, p, e)| == e && ValuesFrom(buckets, p, e) <= pos.Keys
  {
    hide At, Next, ValuesFrom, Matched;
    if e == 0 {
      ValuesFromStep(buckets, p, e);
    } else {
      RunIsShort(buckets, pos, p, e - 1);
      ValuesFromStep(buckets, p, e);
      NewValue(buckets, pos, p, e);
    }
  }

  lemma ValuesFromStep(buckets: seq<Bucket>, p: nat, e: nat)
    requires p < |buckets| && e <= |buckets|
    ensures ValuesFrom(buckets, p, e) == if e == 0 then {}
            else ValuesFrom(buckets, p, e - 1) + {buckets[At(p, e - 1, |buckets|)].idx}
  {
  }

  lemma NewValue(buckets: seq<Bucket>, pos: map<nat, nat>, p: nat, e: nat)
    requires Matched(buckets, pos) && p < |buckets| && 0 < e <= |buckets|
    requires forall t: nat | t < e :: buckets[At(p, t, |buckets|)].df != 0
    ensures buckets[At(p, e - 1, |buckets|)].idx !in ValuesFrom(buckets, p, e - 1)
    ensures buckets[At(p, e - 1, |buckets|)].idx in pos
  {
    hide ValuesFrom;
    var b := At(p, e - 1, |buckets|);
    if buckets[b].idx in ValuesFrom(buckets, p, e - 1) {
      ValuesFromMember(buckets, p, e - 1, buckets[b].idx);
      assert false;
    }
  }

  /** From any bucket an empty one is met within as many steps as there are indexed values. */
  lemma {:induction false} EmptyAhead(buckets: seq<Bucket>, pos: map<nat, nat>, p: nat, from: nat) returns (e: nat)
    requires Matched(buckets, pos) && p < |buckets| && |pos| < |buckets| && from <= |pos|
    requires forall t: nat | t < from :: buckets[At(p, t, |buckets|)].df != 0
    ensures e <= |pos| && buckets[At(p, e, |buckets|)].df == 0
    ensures forall t: nat | t < e :: buckets[At(p, t, |buckets|)].df != 0
    decreases |pos| - from
  {
    if buckets[At(p, from, |buckets|)].df == 0 {
      e := from;
    } else {
      RunIsShort(buckets, pos, p, from + 1);
      SubsetSize(ValuesFrom(buckets, p, from + 1), pos.Keys);
      e := EmptyAhead(buckets, pos, p, from + 1);
    }
  }

  // ----- shifting up

  function Inc(c: Bucket): Bucket { Bucket(DistInc(c.df), c.idx) }

  function Dec(c: Bucket): Bucket
    requires c.df < TWO_TO_32
  {
    Bucket(DistDec(c.df), c.idx)
  }

  /** `count` buckets from `place` on rewritten: the first becomes `new_`, the others what was one step before them. */
  ghost function ShiftedUp(buckets: seq<Bucket>, place: nat, count: nat, new_: Bucket): (r: seq<Bucket>)
    requires place < |buckets|
    ensures |r| == |buckets|
  {
    seq(|buckets|, b requires 0 <= b < |buckets| =>
      var o := Off(place, b, |buckets|);
      if o >= count then buckets[b] else if o == 0 then new_ else Inc(buckets[Prev(b, |buckets|)]))
  }

  /** `count` buckets from `place` on rewritten to what was one step after them. */
  ghost function ShiftedDown(buckets: seq<Bucket>, place: nat, count: nat): (r: seq<Bucket>)
    requires place < |buckets| && forall b | 0 <= b < |buckets| :: buckets[b].df < TWO_TO_32
    ensures |r| == |buckets|
  {
    seq(|buckets|, b requires 0 <= b < |buckets| =>
      if Off(place, b, |buckets|) >= count then buckets[b] else Dec(buckets[Next(b, |buckets|)]))
  }

  lemma RingSteps(p: nat, b: nat, n: nat)
    requires p < n && b < n
    ensures At(p, Off(p, b, n), n) == b && Off(p, b, n) < n
    ensures Off(p, Next(b, n), n) == if Off(p, b, n) + 1 == n then 0 else Off(p, b, n) + 1
    ensures Prev(Next(b, n), n) == b && Next(Prev(b, n), n) == b && Next(b, n) < n && Prev(b, n) < n
    ensures Off(p, b, n) > 0 ==> Off(p, Prev(b, n), n) == Off(p, b, n) - 1
  {
  }

  lemma OffAt(p: nat, i: nat, n: nat)
    requires p < n && i < n
    ensures Off(p, At(p, i, n), n) == i
  {
  }

  /** Where a value's bucket is after an insertion that rewrote `count` buckets from `place` on. */
  ghost function PosUp(pos: map<nat, nat>, n: nat, place: nat, count: nat, i: nat): map<nat, nat>
    requires place < n && forall x | x in pos :: pos[x] < n
  {
    (map x | x in pos :: if Off(place, pos[x], n) + 1 < count then Next(pos[x], n) else pos[x])[i := place]
  }

  /** The probe for `key` reached `place` after `j` steps, past buckets that are all at least as far from home. */
  ghost predicate Reached<K>(g: Geometry<K>, buckets: seq<Bucket>, key: K, j: nat, place: nat) {
    && Home(g, key) < |buckets| && j < |buckets| && place == At(Home(g, key), j, |buckets|)
    && forall t: nat | t < j :: buckets[At(Home(g, key), t, |buckets|)].df >= Wanted(g, key, t)
  }

  /** The first empty bucket from `place` on is `count - 1` steps away. */
  ghost predicate RunOf(buckets: seq<Bucket>, place: nat, count: nat)
    requires place < |buckets|
  {
    && 1 <= count <= |buckets|
    && buckets[At(place, count - 1, |buckets|)].df == 0
    && forall t: nat | t + 1 < count :: buckets[At(place, t, |buckets|)].df != 0
  }

  /** No distance is about to overflow its 24 bits. */
  ghost predicate ShortDistances(buckets: seq<Bucket>) {
    forall b | 0 <= b < |buckets| :: buckets[b].df + DIST_INC < TWO_TO_32
  }

  lemma ShiftedUpAt(buckets: seq<Bucket>, place: nat, count: nat, new_: Bucket, b: nat)
    requires place < |buckets| && b < |buckets|
    ensures var o := Off(place, b, |buckets|); var r := ShiftedUp(buckets, place, count, new_)[b];
            && (o >= count ==> r == buckets[b])
            && (o < count && o == 0 ==> r == new_)
            && (o < count && o > 0 ==> r == Inc(buckets[Prev(b, |buckets|)]))
    ensures Prev(b, |buckets|) < |buckets|
  {
  }

  ghost predicate InOrder(df: nat, next: nat) {
    next < 2 * DIST_INC || next <= df + DIST_INC
  }

  lemma OrderedAt(buckets: seq<Bucket>, b: nat)
    requires Ordered(buckets) && b < |buckets|
    ensures Next(b, |buckets|) < |buckets| && InOrder(buckets[b].df, buckets[Next(b, |buckets|)].df)
  {
  }

  lemma RunOfAt(buckets: seq<Bucket>, place: nat, count: nat, b: nat)
    requires place < |buckets| && b < |buckets| && RunOf(buckets, place, count)
    ensures 1 <= count <= |buckets|
    ensures Off(place, b, |buckets|) + 1 == count ==> buckets[b].df == 0
    ensures Off(place, b, |buckets|) + 1 < count ==> buckets[b].df != 0
  {
    RingSteps(place, b, |buckets|);
  }

  /** The new bucket and the one before it. */
  lemma ShiftUpFirst<K>(g: Geometry<K>, buckets: seq<Bucket>, key: K, j: nat, place: nat, count: nat, new_: Bucket, b: nat)
    requires Reached(g, buckets, key, j, place) && RunOf(buckets, place, count) && |buckets| >= 2
    requires b < |buckets| && Next(b, |buckets|) == place && new_.df == Wanted(g, key, j)
    ensures InOrder(ShiftedUp(buckets, place, count, new_)[b].df, new_.df)
  {
    hide ShiftedUp, RunOf;
    RingSteps(place, b, |buckets|);
    ShiftedUpAt(buckets, place, count, new_, b);
    RunOfAt(buckets, place, count, b);
    if j > 0 {
      StepAt(Home(g, key), j - 1, |buckets|);
      assert b == At(Home(g, key), j - 1, |buckets|);
    }
  }

  /** A later pair of neighbours. */
  lemma ShiftUpLater(buckets: seq<Bucket>, place: nat, count: nat, new_: Bucket, b: nat)
    requires Ordered(buckets) && ShortDistances(buckets)
    requires place < |buckets| && RunOf(buckets, place, count) && b < |buckets| && Next(b, |buckets|) != place
    requires forall x | 0 <= x < |buckets| :: buckets[x].df == 0 || buckets[x].df >= DIST_INC
    requires buckets[place].df <= new_.df && DIST_INC <= new_.df
    ensures Next(b, |buckets|) < |buckets|
    ensures var r := ShiftedUp(buckets, place, count, new_); InOrder(r[b].df, r[Next(b, |buckets|)].df)
  {
    hide ShiftedUp, RunOf, Ordered;
    var n, c := |buckets|, Next(b, |buckets|);
    RingSteps(place, b, n);
    ShiftedUpAt(buckets, place, count, new_, b);
    ShiftedUpAt(buckets, place, count, new_, c);
    RunOfAt(buckets, place, count, b);
    OrderedAt(buckets, b);
    if 0 < Off(place, b, n) && Off(place, b, n) + 1 < count {
      OrderedAt(buckets, Prev(b, n));
      RingSteps(place, Prev(b, n), n);
      RunOfAt(buckets, place, count, Prev(b, n));
    }
  }

  lemma ShiftUpOrdered<K>(g: Geometry<K>, buckets: seq<Bucket>, key: K, j: nat, place: nat, count: nat, new_: Bucket)
    requires Ordered(buckets) && ShortDistances(buckets) && Reached(g, buckets, key, j, place)
    requires RunOf(buckets, place, count) && |buckets| >= 2
    requires forall x | 0 <= x < |buckets| :: buckets[x].df == 0 || buckets[x].df >= DIST_INC
    requires new_.df == Wanted(g, key, j) && buckets[place].df <= new_.df
    ensures Ordered(ShiftedUp(buckets, place, count, new_))
  {
    var n, r := |buckets|, ShiftedUp(buckets, place, count, new_);
    hide RunOf;
    RunOfAt(buckets, place, count, place);
    forall b | 0 <= b < n
      ensures InOrder(r[b].df, r[Next(b, n)].df)
    {
      hide *;
      if Next(b, n) == place {
        ShiftUpFirst(g, buckets, key, j, place, count, new_, b);
        ShiftedUpAt(buckets, place, count, new_, place);
        OffAt(place, 0, n);
      } else {
        ShiftUpLater(buckets, place, count, new_, b);
      }
    }
  }

  lemma IndexAt<K, V>(g: Geometry<K>, values: seq<Entry<K, V>>, buckets: seq<Bucket>, pos: map<nat, nat>, b: nat)
    requires Index(g, values, buckets, pos) && b < |buckets|
    ensures if buckets[b].df == 0 then buckets[b].idx == 0
            else DIST_INC <= buckets[b].df && Homed(g, values, |buckets|, b, buckets[b])
                 && buckets[b].idx in pos && pos[buckets[b].idx] == b
  {
  }

  lemma IndexFacts<K, V>(g: Geometry<K>, values: seq<Entry<K, V>>, buckets: seq<Bucket>, pos: map<nat, nat>)
    requires Index(g, values, buckets, pos)
    ensures Ordered(buckets) && Matched(buckets, pos) && GoodGeometry(g, |buckets|) && |buckets| >= 4
    ensures forall x | x in pos :: pos[x] < |buckets| && buckets[pos[x]].df != 0 && buckets[pos[x]].idx == x && x < |values|
    ensures forall x | 0 <= x < |buckets| :: buckets[x].df == 0 || buckets[x].df >= DIST_INC
    ensures forall key :: Home(g, key) < |buckets|
  {
    forall x | x in pos
      ensures pos[x] < |buckets| && buckets[pos[x]].df != 0 && buckets[pos[x]].idx == x && x < |values|
    {
      assert Homed(g, values, |buckets|, pos[x], buckets[pos[x]]);
    }
    forall key
      ensures Home(g, key) < |buckets|
    {
      HomeInRange(g, |buckets|, key);
    }
    PowersGrow(g.shifts);
  }

  lemma PowersGrow(s: nat)
    requires 32 <= s <= 62
    ensures Pow2(64 - s) >= 4
  {
    Pow2Sum(2, 62 - s);
    WordPowers();
    hide Pow2;
    MulMono(1, Pow2(62 - s), 4);
  }

  /** While some bucket is empty no bucket is a whole round away from its home. */
  lemma DistanceBelow<K, V>(g: Geometry<K>, values: seq<Entry<K, V>>, buckets: seq<Bucket>, pos: map<nat, nat>,
      b: nat, e: nat)
    requires Index(g, values, buckets, pos) && b < |buckets| && buckets[b].df != 0
    requires e < |buckets| && buckets[e].df == 0
    ensures buckets[b].df < DIST_INC * |buckets|
  {
    hide Index, Match;
    IndexAt(g, values, buckets, pos, b);
    IndexFacts(g, values, buckets, pos);
    var i := buckets[b].idx;
    var d := ProbeMeets(g, values, buckets, pos, i);
    var h := Home(g, values[i].key);
    RingSteps(h, e, |buckets|);
    OffAt(h, d, |buckets|);
    OffAt(h, buckets[b].df / DIST_INC - 1, |buckets|);
  }

  lemma HomedNext<K, V>(g: Geometry<K>, values: seq<Entry<K, V>>, n: nat, b: nat, c: Bucket)
    requires Homed(g, values, n, b, c) && b < n && c.df < DIST_INC * n && c.df + DIST_INC < TWO_TO_32
    ensures Homed(g, values, n, Next(b, n), Inc(c)) && Inc(c).df == c.df + DIST_INC
  {
    hide Home, Fingerprint;
    StepAt(Home(g, values[c.idx].key), c.df / DIST_INC - 1, n);
  }

  /** Every bucket after an insertion is where it says it is. */
  lemma ShiftUpHomed<K, V>(g: Geometry<K>, values: seq<Entry<K, V>>, buckets: seq<Bucket>, pos: map<nat, nat>,
      j: nat, place: nat, count: nat, i: nat, b: nat)
    requires Index(g, values, buckets, pos) && ShortDistances(buckets)
    requires i < |values| && Reached(g, buckets, values[i].key, j, place) && RunOf(buckets, place, count)
    requires b < |buckets|
    ensures var c := ShiftedUp(buckets, place, count, Bucket(Wanted(g, values[i].key, j), i))[b];
            if c.df == 0 then c.idx == 0 else Homed(g, values, |buckets|, b, c)
  {
    hide Index, ShiftedUp, RunOf, Homed;
    var n, new_ := |buckets|, Bucket(Wanted(g, values[i].key, j), i);
    RingSteps(place, b, n);
    ShiftedUpAt(buckets, place, count, new_, b);
    RunOfAt(buckets, place, count, b);
    var o := Off(place, b, n);
    if o >= count {
      IndexAt(g, values, buckets, pos, b);
    } else if o == 0 {
      NewIsHomed(g, values, n, j, i);
    } else {
      var a := Prev(b, n);
      RingSteps(place, a, n);
      RunOfAt(buckets, place, count, a);
      IndexAt(g, values, buckets, pos, a);
      RunEnd(buckets, place, count);
      DistanceBelow(g, values, buckets, pos, a, At(place, count - 1, n));
      HomedNext(g, values, n, a, buckets[a]);
    }
  }

  lemma RunEnd(buckets: seq<Bucket>, place: nat, count: nat)
    requires place < |buckets| && RunOf(buckets, place, count)
    ensures 1 <= count <= |buckets| && At(place, count - 1, |buckets|) < |buckets|
    ensures buckets[At(place, count - 1, |buckets|)].df == 0
  {
  }

  lemma NewIsHomed<K, V>(g: Geometry<K>, values: seq<Entry<K, V>>, n: nat, j: nat, i: nat)
    requires i < |values| && Home(g, values[i].key) < n && j < n
    ensures Homed(g, values, n, At(Home(g, values[i].key), j, n), Bucket(Wanted(g, values[i].key, j), i))
  {
    assert Wanted(g, values[i].key, j) / DIST_INC == j + 1;
  }

  /** After an insertion the indexed values and the buckets in use still correspond, the new value's bucket added. */
  lemma ShiftUpMatched(buckets: seq<Bucket>, pos: map<nat, nat>, place: nat, count: nat, new_: Bucket)
    requires Matched(buckets, pos) && ShortDistances(buckets) && place < |buckets| && RunOf(buckets, place, count)
    requires new_.df != 0 && new_.idx !in pos
    ensures Matched(ShiftedUp(buckets, place, count, new_), PosUp(pos, |buckets|, place, count, new_.idx))
  {
    hide ShiftedUp, RunOf;
    var n, r, pos' := |buckets|, ShiftedUp(buckets, place, count, new_), PosUp(pos, |buckets|, place, count, new_.idx);
    forall x | x in pos'
      ensures pos'[x] < n && r[pos'[x]].df != 0 && r[pos'[x]].idx == x
    {
      if x == new_.idx {
        OffAt(place, 0, n);
        RunOfAt(buckets, place, count, place);
        ShiftedUpAt(buckets, place, count, new_, place);
      } else {
        var b := pos[x];
        RingSteps(place, b, n);
        RunOfAt(buckets, place, count, b);
        ShiftedUpAt(buckets, place, count, new_, b);
        ShiftedUpAt(buckets, place, count, new_, Next(b, n));
      }
    }
    forall b | 0 <= b < n && r[b].df != 0
      ensures r[b].idx in pos' && pos'[r[b].idx] == b
    {
      RingSteps(place, b, n);
      ShiftedUpAt(buckets, place, count, new_, b);
      RunOfAt(buckets, place, count, Prev(b, n));
      RunOfAt(buckets, place, count, b);
      OffAt(place, 0, n);
      if Off(place, b, n) == 0 {
        assert b == place;
      }
    }
  }

  /** Placing a value's bucket where its probe stopped, and shifting up to the next empty bucket, indexes that value too. */
  lemma InsertKeeps<K, V>(g: Geometry<K>, values: seq<Entry<K, V>>, buckets: seq<Bucket>, pos: map<nat, nat>,
      j: nat, place: nat, count: nat, i: nat)
    requires Index(g, values, buckets, pos) && ShortDistances(buckets)
    requires i < |values| && i !in pos && Reached(g, buckets, values[i].key, j, place) && RunOf(buckets, place, count)
    requires buckets[place].df <= Wanted(g, values[i].key, j)
    ensures forall x | x in pos :: pos[x] < |buckets|
    ensures var pos' := PosUp(pos, |buckets|, place, count, i);
            && Index(g, values, ShiftedUp(buckets, place, count, Bucket(Wanted(g, values[i].key, j), i)), pos')
            && pos'.Keys == pos.Keys + {i}
  {
    hide ShiftedUp, RunOf, ShortDistances, Ordered, Matched, Homed, GoodGeometry;
    IndexFacts(g, values, buckets, pos);
    var new_ := Bucket(Wanted(g, values[i].key, j), i);
    ShiftUpOrdered(g, buckets, values[i].key, j, place, count, new_);
    ShiftUpMatched(buckets, pos, place, count, new_);
    forall b | 0 <= b < |buckets|
      ensures var c := ShiftedUp(buckets, place, count, new_)[b];
              if c.df == 0 then c.idx == 0 else Homed(g, values, |buckets|, b, c)
    {
      ShiftUpHomed(g, values, buckets, pos, j, place, count, i, b);
    }
  }

  // ----- shifting down

  /** After the erased bucket `count` buckets are away from their homes, and the next one is not. */
  ghost predicate TailOf(buckets: seq<Bucket>, place: nat, count: nat)
    requires place < |buckets|
  {
    && count + 1 < |buckets|
    && buckets[At(place, count + 1, |buckets|)].df < 2 * DIST_INC
    && forall t: nat | 1 <= t <= count :: buckets[At(place, t, |buckets|)].df >= 2 * DIST_INC
  }

  ghost predicate Narrow(buckets: seq<Bucket>) {
    forall b | 0 <= b < |buckets| :: buckets[b].df < TWO_TO_32
  }

  /** The buckets after an erasure: the tail moved one step towards its homes, and the last of it empty. */
  ghost function Erased(buckets: seq<Bucket>, place: nat, count: nat): (r: seq<Bucket>)
    requires place < |buckets| && count < |buckets| && Narrow(buckets)
    ensures |r| == |buckets|
  {
    ShiftedDown(buckets, place, count)[At(place, count, |buckets|) := Bucket(0, 0)]
  }

  ghost function PosDown(pos: map<nat, nat>, n: nat, place: nat, count: nat, i: nat): map<nat, nat>
    requires place < n && forall x | x in pos :: pos[x] < n
  {
    map x | x in pos && x != i :: if 1 <= Off(place, pos[x], n) <= count then Prev(pos[x], n) else pos[x]
  }

  lemma ErasedAt(buckets: seq<Bucket>, place: nat, count: nat, b: nat)
    requires place < |buckets| && count < |buckets| && Narrow(buckets) && b < |buckets|
    ensures Next(b, |buckets|) < |buckets|
    ensures var o := Off(place, b, |buckets|); var r := Erased(buckets, place, count)[b];
            && (o < count ==> r == Dec(buckets[Next(b, |buckets|)]))
            && (o == count ==> r == Bucket(0, 0))
            && (o > count ==> r == buckets[b])
  {
    OffAt(place, count, |buckets|);
    RingSteps(place, b, |buckets|);
  }

  lemma TailAt(buckets: seq<Bucket>, place: nat, count: nat, b: nat)
    requires place < |buckets| && b < |buckets| && TailOf(buckets, place, count)
    ensures count + 1 < |buckets|
    ensures 1 <= Off(place, b, |buckets|) <= count ==> buckets[b].df >= 2 * DIST_INC
    ensures Off(place, b, |buckets|) == count + 1 ==> buckets[b].df < 2 * DIST_INC
  {
    RingSteps(place, b, |buckets|);
  }

  lemma EraseOrdered(buckets: seq<Bucket>, place: nat, count: nat)
    requires Ordered(buckets) && Narrow(buckets) && place < |buckets| && TailOf(buckets, place, count) && |buckets| >= 2
    ensures count < |buckets| && Ordered(Erased(buckets, place, count))
  {
    var n, r := |buckets|, Erased(buckets, place, count);
    forall b | 0 <= b < n
      ensures InOrder(r[b].df, r[Next(b, n)].df)
    {
      hide Erased, TailOf, Ordered, Narrow;
      var c := Next(b, n);
      RingSteps(place, b, n);
      RingSteps(place, c, n);
      ErasedAt(buckets, place, count, b);
      ErasedAt(buckets, place, count, c);
      TailAt(buckets, place, count, c);
      TailAt(buckets, place, count, Next(c, n));
      OrderedAt(buckets, b);
      OrderedAt(buckets, c);
    }
  }

  lemma HomedPrev<K, V>(g: Geometry<K>, values: seq<Entry<K, V>>, n: nat, b: nat, c: Bucket)
    requires b < n && Homed(g, values, n, Next(b, n), c) && 2 * DIST_INC <= c.df < TWO_TO_32
    ensures Homed(g, values, n, b, Dec(c)) && Dec(c).df == c.df - DIST_INC
  {
    StepAt(Home(g, values[c.idx].key), c.df / DIST_INC - 2, n);
  }

  lemma EraseHomed<K, V>(g: Geometry<K>, values: seq<Entry<K, V>>, buckets: seq<Bucket>, pos: map<nat, nat>,
      place: nat, count: nat, b: nat)
    requires Index(g, values, buckets, pos) && Narrow(buckets) && place < |buckets| && TailOf(buckets, place, count)
    requires b < |buckets| && count < |buckets|
    ensures var c := Erased(buckets, place, count)[b];
            if c.df == 0 then c.idx == 0 else Homed(g, values, |buckets|, b, c)
  {
    NarrowAt(buckets, Next(b, |buckets|));
    hide Index, Erased, TailOf, Homed, Narrow;
    RingSteps(place, b, |buckets|);
    ErasedAt(buckets, place, count, b);
    IndexAt(g, values, buckets, pos, b);
    if Off(place, b, |buckets|) < count {
      var a := Next(b, |buckets|);
      RingSteps(place, a, |buckets|);
      TailAt(buckets, place, count, a);
      IndexAt(g, values, buckets, pos, a);
      HomedPrev(g, values, |buckets|, b, buckets[a]);
    }
  }

  lemma NarrowAt(buckets: seq<Bucket>, b: nat)
    requires Narrow(buckets)
    ensures b < |buckets| ==> buckets[b].df < TWO_TO_32
  {
  }

  lemma EraseMatched(buckets: seq<Bucket>, pos: map<nat, nat>, place: nat, count: nat)
    requires Matched(buckets, pos) && Narrow(buckets) && place < |buckets| && TailOf(buckets, place, count)
    requires buckets[place].df != 0 && count < |buckets|
    ensures Matched(Erased(buckets, place, count), PosDown(pos, |buckets|, place, count, buckets[place].idx))
  {
    hide Erased, TailOf, Narrow;
    var n, r := |buckets|, Erased(buckets, place, count);
    var pos' := PosDown(pos, n, place, count, buckets[place].idx);
    forall x | x in pos'
      ensures pos'[x] < n && r[pos'[x]].df != 0 && r[pos'[x]].idx == x
    {
      var b := pos[x];
      RingSteps(place, b, n);
      TailAt(buckets, place, count, b);
      NarrowAt(buckets, b);
      ErasedAt(buckets, place, count, b);
      ErasedAt(buckets, place, count, Prev(b, n));
    }
    forall b | 0 <= b < n && r[b].df != 0
      ensures r[b].idx in pos' && pos'[r[b].idx] == b
    {
      RingSteps(place, b, n);
      ErasedAt(buckets, place, count, b);
      var a := Next(b, n);
      RingSteps(place, a, n);
      TailAt(buckets, place, count, a);
      NarrowAt(buckets, a);
      OffAt(place, 0, n);
    }
  }

  /** Taking a bucket out and shifting its tail down unindexes exactly its value. */
  lemma EraseKeeps<K, V>(g: Geometry<K>, values: seq<Entry<K, V>>, buckets: seq<Bucket>, pos: map<nat, nat>,
      place: nat, count: nat)
    requires Index(g, values, buckets, pos) && Narrow(buckets) && place < |buckets| && TailOf(buckets, place, count)
    requires buckets[place].df != 0
    ensures count < |buckets| && forall x | x in pos :: pos[x] < |buckets|
    ensures var pos' := PosDown(pos, |buckets|, place, count, buckets[place].idx);
            && Index(g, values, Erased(buckets, place, count), pos')
            && pos'.Keys == pos.Keys - {buckets[place].idx}
  {
    hide Erased, Narrow, Ordered, Matched, Homed, GoodGeometry;
    IndexFacts(g, values, buckets, pos);
    EraseOrdered(buckets, place, count);
    EraseMatched(buckets, pos, place, count);
    forall b | 0 <= b < |buckets|
      ensures var c := Erased(buckets, place, count)[b];
              if c.df == 0 then c.idx == 0 else Homed(g, values, |buckets|, b, c)
    {
      EraseHomed(g, values, buckets, pos, place, count, b);
    }
  }

  // ----- the dense values

  /** Pointing the last value's bucket at the hole keeps the index exact for the shortened values. */
  lemma ReindexKeeps<K, V>(g: Geometry<K>, values: seq<Entry<K, V>>, buckets: seq<Bucket>, pos: map<nat, nat>, i: nat)
    requires Index(g, values, buckets, pos) && i < |values|
    requires forall x: nat :: x in pos <==> x < |values| && x != i
    ensures var last := |values| - 1;
            if i == last then Index(g, SwapRemove(values, i), buckets, pos) && Covers(pos, last)
            else last in pos && pos[last] < |buckets|
                 && var pos' := (pos - {last})[i := pos[last]];
                    Index(g, SwapRemove(values, i), buckets[pos[last] := buckets[pos[last]].(idx := i)], pos')
                        && Covers(pos', last)
  {
    var last, values' := |values| - 1, SwapRemove(values, i);
    if i == last {
      forall b | 0 <= b < |buckets| && buckets[b].df != 0
        ensures Homed(g, values', |buckets|, b, buckets[b])
      {
        IndexAt(g, values, buckets, pos, b);
      }
    } else {
      ReindexMoved(g, values, buckets, pos, i);
    }
  }

  lemma ReindexMoved<K, V>(g: Geometry<K>, values: seq<Entry<K, V>>, buckets: seq<Bucket>, pos: map<nat, nat>, i: nat)
    requires Index(g, values, buckets, pos) && i + 1 < |values|
    requires forall x: nat :: x in pos <==> x < |values| && x != i
    ensures var last := |values| - 1;
            && last in pos && pos[last] < |buckets|
            && var pos' := (pos - {last})[i := pos[last]];
               Index(g, SwapRemove(values, i), buckets[pos[last] := buckets[pos[last]].(idx := i)], pos')
                   && Covers(pos', last)
  {
    hide GoodGeometry, Ordered, Matched, Homed, SwapRemove;
    IndexFacts(g, values, buckets, pos);
    var last, values' := |values| - 1, SwapRemove(values, i);
    MatchedAt(buckets, pos, last);
    var place := pos[last];
    var r, pos' := buckets[place := buckets[place].(idx := i)], (pos - {last})[i := place];
    forall b | 0 <= b < |r| && r[b].df != 0
      ensures Homed(g, values', |r|, b, r[b])
    {
      IndexAt(g, values, buckets, pos, b);
      SwapRemoveAt(values, i);
      SameHome(g, values, values', |r|, b, buckets[b], r[b].idx);
    }
    ReindexOrdered(buckets, place, i);
    ReindexMatched(buckets, pos, last, i);
  }

  lemma MatchedAt(buckets: seq<Bucket>, pos: map<nat, nat>, i: nat)
    requires Matched(buckets, pos) && i in pos
    ensures pos[i] < |buckets| && buckets[pos[i]].df != 0 && buckets[pos[i]].idx == i
  {
  }

  /** A bucket with another index for the same key. */
  lemma SameHome<K, V>(g: Geometry<K>, values: seq<Entry<K, V>>, values': seq<Entry<K, V>>, n: nat, b: nat,
      c: Bucket, idx: nat)
    requires Homed(g, values, n, b, c) && c.idx < |values| && idx < |values'| && values'[idx].key == values[c.idx].key
    ensures Homed(g, values', n, b, c.(idx := idx))
  {
  }

  lemma ReindexOrdered(buckets: seq<Bucket>, place: nat, i: nat)
    requires Ordered(buckets) && place < |buckets|
    ensures Ordered(buckets[place := buckets[place].(idx := i)])
  {
    var r := buckets[place := buckets[place].(idx := i)];
    forall b | 0 <= b < |r|
      ensures InOrder(r[b].df, r[Next(b, |r|)].df)
    {
      OrderedAt(buckets, b);
    }
  }

  lemma ReindexMatched(buckets: seq<Bucket>, pos: map<nat, nat>, last: nat, i: nat)
    requires Matched(buckets, pos) && last in pos && i !in pos
    ensures pos[last] < |buckets|
    ensures Matched(buckets[pos[last] := buckets[pos[last]].(idx := i)], (pos - {last})[i := pos[last]])
  {
  }

  // ----- one step of a shifting loop

  /** What the `k`-th step of an insertion carries. */
  ghost function Carried(buckets: seq<Bucket>, place: nat, k: nat, new_: Bucket): Bucket
    requires place < |buckets| && k <= |buckets|
  {
    if k == 0 then new_ else Inc(buckets[At(place, k - 1, |buckets|)])
  }

  lemma ShiftUpStarts(buckets: seq<Bucket>, place: nat, new_: Bucket)
    requires place < |buckets|
    ensures ShiftedUp(buckets, place, 0, new_) == buckets && Carried(buckets, place, 0, new_) == new_
    ensures At(place, 0, |buckets|) == place
  {
  }

  lemma ShiftUpStep(buckets: seq<Bucket>, place: nat, k: nat, new_: Bucket)
    requires place < |buckets| && k < |buckets|
    ensures var b := At(place, k, |buckets|);
            && b < |buckets|
            && ShiftedUp(buckets, place, k, new_)[b] == buckets[b]
            && ShiftedUp(buckets, place, k, new_)[b := Carried(buckets, place, k, new_)]
                == ShiftedUp(buckets, place, k + 1, new_)
            && Carried(buckets, place, k + 1, new_) == Inc(buckets[b])
            && (k + 1 < |buckets| ==> Next(b, |buckets|) == At(place, k + 1, |buckets|))
  {
    var n, b := |buckets|, At(place, k, |buckets|);
    var r := ShiftedUp(buckets, place, k, new_)[b := Carried(buckets, place, k, new_)];
    OffAt(place, k, n);
    forall x | 0 <= x < n
      ensures r[x] == ShiftedUp(buckets, place, k + 1, new_)[x]
    {
      hide ShiftedUp;
      RingSteps(place, x, n);
      ShiftedUpAt(buckets, place, k, new_, x);
      ShiftedUpAt(buckets, place, k + 1, new_, x);
      if x == b && k > 0 {
        StepAt(place, k - 1, n);
      }
    }
  }

  lemma ShiftDownStarts(buckets: seq<Bucket>, place: nat)
    requires place < |buckets| && Narrow(buckets)
    ensures ShiftedDown(buckets, place, 0) == buckets && At(place, 0, |buckets|) == place
  {
  }

  lemma ShiftDownStep(buckets: seq<Bucket>, place: nat, k: nat)
    requires place < |buckets| && k + 1 < |buckets| && Narrow(buckets)
    ensures var b, a := At(place, k, |buckets|), At(place, k + 1, |buckets|);
            && b < |buckets| && a < |buckets| && Next(b, |buckets|) == a
            && ShiftedDown(buckets, place, k)[a] == buckets[a] && buckets[a].df < TWO_TO_32
            && ShiftedDown(buckets, place, k)[b := Dec(buckets[a])] == ShiftedDown(buckets, place, k + 1)
  {
    var n, b, a := |buckets|, At(place, k, |buckets|), At(place, k + 1, |buckets|);
    OffAt(place, k, n);
    OffAt(place, k + 1, n);
    StepAt(place, k, n);
    var r := ShiftedDown(buckets, place, k)[b := Dec(buckets[a])];
    forall x | 0 <= x < n
      ensures r[x] == ShiftedDown(buckets, place, k + 1)[x]
    {
      RingSteps(place, x, n);
    }
  }
}
