/** The bucket array of hopscotch hashing as values: what the neighbourhood bits say, and what putting, taking and
    moving a value keep of it. */
module Neighborhoods {
  import opened Arithmetic
  import opened Entries
  import opened Bags

  /** A value with the low bits of its hash, the overflow flag, and the neighbourhood: `i` is in `near` when bit `i`
      is set. */
  datatype Bucket<K, V> = Bucket(value: Option<Entry<K, V>>, hash: Word64, overflow: bool, near: set<nat>)

  /** A growth policy: the bucket of a hash among so many, the next number of buckets when there is one, the number
      of buckets made when so many are asked for, and whether stored low hash bits are used to find buckets again. */
  datatype Policy = Policy(home: (Word64, nat) -> nat, next: nat -> Option<nat>, round: nat -> nat, stored: nat -> bool)

  function Truncated(h: Word64): (r: Word64)
    ensures r < TWO_TO_32
  {
    h % TWO_TO_32
  }

  ghost predicate GoodPolicy(p: Policy) {
    && (forall h: Word64, n: nat | n > 0 :: p.home(h, n) < n)
    && (forall n: nat | p.next(n).Some? :: p.next(n).value > n)
    && (forall n: nat :: p.round(n) >= n)
    && p.round(0) == 0
    && (forall n: nat, m: nat, h: Word64 | p.stored(n) && m <= n && m > 0 :: p.home(Truncated(h), m) == p.home(h, m))
  }

  datatype Space<!K> = Space(hash: K -> Word64, policy: Policy, n: nat, reach: nat)

  function Home<K>(sp: Space<K>, key: K): nat {
    if sp.n == 0 then 0 else sp.policy.home(sp.hash(key), sp.n)
  }

  /** Bucket `h + i` holds a value whose home is `h`. */
  ghost predicate Occupies<K, V>(sp: Space<K>, buckets: seq<Bucket<K, V>>, h: nat, i: nat) {
    h + i < |buckets| && buckets[h + i].value.Some? && Home(sp, buckets[h + i].value.value.key) == h
  }

  ghost predicate BitsOk<K, V>(sp: Space<K>, buckets: seq<Bucket<K, V>>, h: nat)
    requires h < |buckets|
  {
    forall i: nat :: i in buckets[h].near <==> i < sp.reach && Occupies(sp, buckets, h, i)
  }

  ghost predicate ValueOk<K, V>(sp: Space<K>, c: Bucket<K, V>, b: nat) {
    c.value.Some? ==>
      && Home(sp, c.value.value.key) <= b < Home(sp, c.value.value.key) + sp.reach
      && Home(sp, c.value.value.key) < sp.n
      && c.hash == Truncated(sp.hash(c.value.value.key))
  }

  /** Bit `i` of bucket `b` is set if and only if bucket `b + i`, within reach of `b`, holds a value whose home is `b`;
      and every value lies within reach of its home. */
  ghost predicate Neighborly<K, V>(sp: Space<K>, buckets: seq<Bucket<K, V>>) {
    && 4 <= sp.reach <= 62
    && |buckets| == (if sp.n == 0 then 0 else sp.n + sp.reach - 1)
    && (forall b: nat | b < |buckets| :: BitsOk(sp, buckets, b))
    && (forall b: nat | b < |buckets| :: ValueOk(sp, buckets[b], b))
  }

  // ----- what the operations on a bucket do

  /** `toggle_neighbor_presence`. */
  function Flip(s: set<nat>, i: nat): set<nat> {
    if i in s then s - {i} else s + {i}
  }

  function Toggle<K, V>(buckets: seq<Bucket<K, V>>, h: nat, i: nat): (r: seq<Bucket<K, V>>)
    requires h < |buckets|
    ensures |r| == |buckets|
  {
    buckets[h := buckets[h].(near := Flip(buckets[h].near, i))]
  }

  function SetValue<K, V>(buckets: seq<Bucket<K, V>>, b: nat, hash: Word64, e: Entry<K, V>): (r: seq<Bucket<K, V>>)
    requires b < |buckets|
    ensures |r| == |buckets|
  {
    buckets[b := buckets[b].(value := Some(e), hash := hash)]
  }

  function RemoveValue<K, V>(buckets: seq<Bucket<K, V>>, b: nat): (r: seq<Bucket<K, V>>)
    requires b < |buckets|
    ensures |r| == |buckets|
  {
    buckets[b := buckets[b].(value := None)]
  }

  /** `swap_value_into_empty_bucket`. */
  function SwapValue<K, V>(buckets: seq<Bucket<K, V>>, b: nat, e: nat): (r: seq<Bucket<K, V>>)
    requires b < |buckets| && e < |buckets|
    ensures |r| == |buckets|
  {
    var moved := buckets[e := buckets[e].(value := buckets[b].value, hash := buckets[b].hash)];
    moved[b := moved[b].(value := None)]
  }

  function SetOverflow<K, V>(buckets: seq<Bucket<K, V>>, h: nat, flag: bool): (r: seq<Bucket<K, V>>)
    requires h < |buckets|
    ensures |r| == |buckets|
  {
    buckets[h := buckets[h].(overflow := flag)]
  }

  function Values<K, V>(buckets: seq<Bucket<K, V>>): (r: seq<Option<Entry<K, V>>>)
    ensures |r| == |buckets|
    ensures forall i | 0 <= i < |r| :: r[i] == buckets[i].value
  {
    seq(|buckets|, i requires 0 <= i < |buckets| => buckets[i].value)
  }

  ghost function Stored<K, V>(buckets: seq<Bucket<K, V>>): multiset<Entry<K, V>> {
    Gather(Values(buckets))
  }

  // ----- what they keep

  lemma BitsAt<K, V>(sp: Space<K>, buckets: seq<Bucket<K, V>>, h: nat, i: nat)
    requires Neighborly(sp, buckets) && h < |buckets|
    ensures i in buckets[h].near <==> i < sp.reach && Occupies(sp, buckets, h, i)
  {
    assert BitsOk(sp, buckets, h);
  }

  lemma ValueAt<K, V>(sp: Space<K>, buckets: seq<Bucket<K, V>>, b: nat)
    requires Neighborly(sp, buckets) && b < |buckets| && buckets[b].value.Some?
    ensures var h := Home(sp, buckets[b].value.value.key);
            && h <= b < h + sp.reach && h < sp.n <= |buckets| && b - h in buckets[h].near
            && buckets[b].hash == Truncated(sp.hash(buckets[b].value.value.key))
  {
    assert ValueOk(sp, buckets[b], b);
    var h := Home(sp, buckets[b].value.value.key);
    BitsAt(sp, buckets, h, b - h);
  }

  /** Only the contents of bucket `e` change, from or to empty: only the bit of its home changes. */
  lemma OneBit<K, V>(sp: Space<K>, buckets: seq<Bucket<K, V>>, buckets': seq<Bucket<K, V>>, e: nat, b: nat)
    requires Neighborly(sp, buckets) && |buckets'| == |buckets| && e < |buckets| && b < |buckets|
    requires forall x: nat | x < |buckets| && x != e :: buckets'[x].value == buckets[x].value
    requires buckets[e].value.None? || buckets'[e].value.None?
    requires buckets[e].value.Some? || buckets'[e].value.Some?
    requires var h := Home(sp, (if buckets[e].value.Some? then buckets[e] else buckets'[e]).value.value.key);
             h <= e < h + sp.reach &&
             buckets'[b].near == if b == h then Flip(buckets[b].near, e - h) else buckets[b].near
    ensures BitsOk(sp, buckets', b)
  {
    forall i: nat
      ensures i in buckets'[b].near <==> i < sp.reach && Occupies(sp, buckets', b, i)
    {
      BitsAt(sp, buckets, b, i);
    }
  }

  lemma PutKeeps<K, V>(sp: Space<K>, buckets: seq<Bucket<K, V>>, h: nat, b: nat, e: Entry<K, V>)
    requires Neighborly(sp, buckets) && h < sp.n && h <= b < h + sp.reach && b < |buckets| && buckets[b].value.None?
    requires h == Home(sp, e.key)
    ensures Neighborly(sp, Toggle(SetValue(buckets, b, Truncated(sp.hash(e.key)), e), h, b - h))
    ensures Stored(Toggle(SetValue(buckets, b, Truncated(sp.hash(e.key)), e), h, b - h)) == Stored(buckets) + multiset{e}
  {
    hide Home, BitsOk, Truncated, Flip, Occupies, Gather;
    var r := Toggle(SetValue(buckets, b, Truncated(sp.hash(e.key)), e), h, b - h);
    forall x: nat | x < |r|
      ensures BitsOk(sp, r, x)
    {
      OneBit(sp, buckets, r, b, x);
    }
    forall x: nat | x < |r|
      ensures ValueOk(sp, r[x], x)
    {
      assert ValueOk(sp, buckets[x], x);
    }
    PutStored(buckets, r, b, e);
  }

  lemma PutStored<K, V>(buckets: seq<Bucket<K, V>>, r: seq<Bucket<K, V>>, b: nat, e: Entry<K, V>)
    requires |r| == |buckets| && b < |buckets| && buckets[b].value.None? && r[b].value == Some(e)
    requires forall x: nat | x < |buckets| && x != b :: r[x].value == buckets[x].value
    ensures Stored(r) == Stored(buckets) + multiset{e}
  {
    assert Values(r) == Values(buckets)[b := Some(e)];
    GatherUpdate(Values(buckets), b, Some(e));
  }

  lemma TakeKeeps<K, V>(sp: Space<K>, buckets: seq<Bucket<K, V>>, b: nat)
    requires Neighborly(sp, buckets) && b < |buckets| && buckets[b].value.Some?
    ensures var h := Home(sp, buckets[b].value.value.key);
            && h <= b && h < |buckets|
            && Neighborly(sp, Toggle(RemoveValue(buckets, b), h, b - h))
            && Stored(Toggle(RemoveValue(buckets, b), h, b - h)) + multiset{buckets[b].value.value} == Stored(buckets)
  {
    ValueAt(sp, buckets, b);
    var h := Home(sp, buckets[b].value.value.key);
    var r := Toggle(RemoveValue(buckets, b), h, b - h);
    forall x: nat | x < |r|
      ensures BitsOk(sp, r, x) && ValueOk(sp, r[x], x)
    {
      hide Home, BitsOk;
      OneBit(sp, buckets, r, b, x);
      assert ValueOk(sp, buckets[x], x);
    }
    assert Values(r) == Values(buckets)[b := None];
    GatherUpdate(Values(buckets), b, None);
  }

  /** Moving a value of home `c` from bucket `c + i` into the empty bucket `e`, both within reach of `c`. */
  lemma MoveKeeps<K, V>(sp: Space<K>, buckets: seq<Bucket<K, V>>, c: nat, i: nat, e: nat)
    requires Neighborly(sp, buckets) && c + i < e < |buckets| && e < c + sp.reach && i in buckets[c].near
             && buckets[e].value.None?
    ensures var r := Toggle(Toggle(SwapValue(buckets, c + i, e), c, e - c), c, i);
            && Neighborly(sp, r) && Stored(r) == Stored(buckets)
            && (forall x: nat | x < |buckets| :: r[x].overflow == buckets[x].overflow)
            && (forall x: nat | x < |buckets| :: r[x].value.Some? <==> x == e || (x != c + i && buckets[x].value.Some?))
  {
    hide *;
    var b := c + i;
    NearIs(sp, buckets, c, i);
    FarIsNot(sp, buckets, c, e);
    var v := buckets[b].value.value;
    TakeKeeps(sp, buckets, b);
    var mid := Toggle(RemoveValue(buckets, b), c, i);
    MidIs(buckets, c, b, e);
    PutKeeps(sp, mid, c, e, v);
    MovedIs(buckets, c, b, e, Truncated(sp.hash(v.key)), v);
    MovedShape(buckets, c, b, e);
    Cancel(Stored(Toggle(Toggle(SwapValue(buckets, b, e), c, e - c), c, i)), Stored(buckets), multiset{v});
  }

  lemma NearIs<K, V>(sp: Space<K>, buckets: seq<Bucket<K, V>>, c: nat, i: nat)
    requires Neighborly(sp, buckets) && c < |buckets| && i in buckets[c].near
    ensures c + i < |buckets| && c < sp.n && buckets[c + i].value.Some? && Home(sp, buckets[c + i].value.value.key) == c
    ensures buckets[c + i].hash == Truncated(sp.hash(buckets[c + i].value.value.key))
  {
    BitsAt(sp, buckets, c, i);
    ValueAt(sp, buckets, c + i);
  }

  lemma FarIsNot<K, V>(sp: Space<K>, buckets: seq<Bucket<K, V>>, c: nat, e: nat)
    requires Neighborly(sp, buckets) && c <= e < |buckets| && buckets[e].value.None?
    ensures e - c !in buckets[c].near
  {
    BitsAt(sp, buckets, c, e - c);
  }

  lemma MidIs<K, V>(buckets: seq<Bucket<K, V>>, c: nat, b: nat, e: nat)
    requires c <= b < e < |buckets| && buckets[e].value.None?
    ensures var mid := Toggle(RemoveValue(buckets, b), c, b - c); |mid| == |buckets| && mid[e].value.None?
  {
  }

  /** Moving a value comes to the same as taking it out and putting it in elsewhere. */
  lemma MovedIs<K, V>(buckets: seq<Bucket<K, V>>, c: nat, b: nat, e: nat, h: Word64, v: Entry<K, V>)
    requires c <= b < e < |buckets| && buckets[b].value == Some(v) && buckets[b].hash == h
    requires b - c in buckets[c].near && e - c !in buckets[c].near
    ensures Toggle(Toggle(SwapValue(buckets, b, e), c, e - c), c, b - c)
            == Toggle(SetValue(Toggle(RemoveValue(buckets, b), c, b - c), e, h, v), c, e - c)
  {
    var r := Toggle(Toggle(SwapValue(buckets, b, e), c, e - c), c, b - c);
    var s := Toggle(SetValue(Toggle(RemoveValue(buckets, b), c, b - c), e, h, v), c, e - c);
    assert r[c].near == s[c].near;
  }

  lemma MovedShape<K, V>(buckets: seq<Bucket<K, V>>, c: nat, b: nat, e: nat)
    requires c <= b < e < |buckets| && buckets[b].value.Some?
    ensures var r := Toggle(Toggle(SwapValue(buckets, b, e), c, e - c), c, b - c);
            && (forall x: nat | x < |buckets| :: r[x].overflow == buckets[x].overflow)
            && (forall x: nat | x < |buckets| :: r[x].value.Some? <==> x == e || (x != b && buckets[x].value.Some?))
  {
  }

  lemma SameBits<K, V>(sp: Space<K>, buckets: seq<Bucket<K, V>>, buckets': seq<Bucket<K, V>>)
    requires Neighborly(sp, buckets) && |buckets'| == |buckets|
    requires forall b: nat | b < |buckets| :: buckets'[b].near == buckets[b].near && buckets'[b].hash == buckets[b].hash
               && buckets'[b].value.Some? == buckets[b].value.Some?
               && (buckets[b].value.Some? ==> buckets'[b].value.value.key == buckets[b].value.value.key)
    ensures Neighborly(sp, buckets')
  {
    forall b: nat | b < |buckets|
      ensures BitsOk(sp, buckets', b) && ValueOk(sp, buckets'[b], b)
    {
      assert ValueOk(sp, buckets[b], b);
      forall i: nat
        ensures i in buckets'[b].near <==> i < sp.reach && Occupies(sp, buckets', b, i)
      {
        BitsAt(sp, buckets, b, i);
      }
    }
  }

  // ----- scanning the bits

  /** `infos >> 1`. */
  function ShiftOut(s: set<nat>): set<nat> {
    set x | x in s && x > 0 :: x - 1
  }

  /** The bits from the `i`-th on, moved down by `i`. */
  ghost predicate Remaining(infos: set<nat>, near: set<nat>, i: nat) {
    forall x: nat :: x in infos <==> x + i in near
  }

  lemma RemainingStarts(near: set<nat>)
    ensures Remaining(near, near, 0)
  {
  }

  lemma RemainingNext(infos: set<nat>, near: set<nat>, i: nat)
    requires Remaining(infos, near, i)
    ensures Remaining(ShiftOut(infos), near, i + 1)
    ensures 0 in infos <==> i in near
  {
    assert 0 in infos <==> 0 + i in near;
    forall x: nat
      ensures x in ShiftOut(infos) <==> x + (i + 1) in near
    {
      assert x + 1 in infos <==> (x + 1) + i in near;
      if x + 1 in infos {
        assert x == (x + 1) - 1;
      }
    }
  }

  lemma RemainingNone(infos: set<nat>, near: set<nat>, i: nat)
    requires Remaining(infos, near, i) && infos == {}
    ensures forall x: nat | x in near :: x < i
  {
    forall x: nat | x in near
      ensures x < i
    {
      if x >= i {
        RemainingAt(infos, near, i, x);
      }
    }
  }

  lemma RemainingAt(infos: set<nat>, near: set<nat>, i: nat, x: nat)
    requires Remaining(infos, near, i) && x in near && x >= i
    ensures x - i in infos
  {
    assert x - i in infos <==> (x - i) + i in near;
  }

  lemma RemainingSome(infos: set<nat>, near: set<nat>, i: nat, reach: nat)
    requires Remaining(infos, near, i) && infos != {} && forall x: nat | x in near :: x < reach
    ensures i < reach
  {
    var x :| x in infos;
    assert x + i in near;
  }

  // ----- the overflow container

  ghost predicate SomeHome<K, V>(sp: Space<K>, overflow: seq<Entry<K, V>>, h: nat) {
    exists j :: 0 <= j < |overflow| && Home(sp, overflow[j].key) == h
  }

  /** The overflow flag of a bucket is set if and only if some overflow element has it as home. */
  ghost predicate Flagged<K, V>(sp: Space<K>, buckets: seq<Bucket<K, V>>, overflow: seq<Entry<K, V>>) {
    && (forall b: nat | b < |buckets| :: buckets[b].overflow <==> SomeHome(sp, overflow, b))
    && (sp.n == 0 ==> overflow == [])
  }

  lemma OverflowGrows<K, V>(sp: Space<K>, buckets: seq<Bucket<K, V>>, overflow: seq<Entry<K, V>>, e: Entry<K, V>)
    requires Flagged(sp, buckets, overflow) && Home(sp, e.key) < |buckets| && sp.n > 0
    ensures Flagged(sp, SetOverflow(buckets, Home(sp, e.key), true), overflow + [e])
  {
    var h, more := Home(sp, e.key), overflow + [e];
    var r := SetOverflow(buckets, h, true);
    assert more[|overflow|] == e;
    forall b: nat | b < |r|
      ensures r[b].overflow <==> SomeHome(sp, more, b)
    {
      assert buckets[b].overflow <==> SomeHome(sp, overflow, b);
      if SomeHome(sp, overflow, b) {
        var j :| 0 <= j < |overflow| && Home(sp, overflow[j].key) == b;
        assert more[j] == overflow[j];
      }
      if SomeHome(sp, more, b) && b != h {
        var j :| 0 <= j < |more| && Home(sp, more[j].key) == b;
        assert more[j] == overflow[j];
      }
    }
  }

  lemma OverflowShrinks<K, V>(sp: Space<K>, buckets: seq<Bucket<K, V>>, overflow: seq<Entry<K, V>>, j: nat)
    requires Flagged(sp, buckets, overflow) && j < |overflow| && Home(sp, overflow[j].key) < |buckets|
    ensures var h, less := Home(sp, overflow[j].key), overflow[..j] + overflow[j + 1..];
            Flagged(sp, if SomeHome(sp, less, h) then buckets else SetOverflow(buckets, h, false), less)
  {
    var h, less := Home(sp, overflow[j].key), overflow[..j] + overflow[j + 1..];
    var r := if SomeHome(sp, less, h) then buckets else SetOverflow(buckets, h, false);
    assert forall x | 0 <= x < |less| :: less[x] == overflow[if x < j then x else x + 1];
    forall b: nat | b < |r|
      ensures r[b].overflow <==> SomeHome(sp, less, b)
    {
      assert buckets[b].overflow <==> SomeHome(sp, overflow, b);
      if SomeHome(sp, overflow, b) && b != h {
        var x :| 0 <= x < |overflow| && Home(sp, overflow[x].key) == b;
        assert less[if x < j then x else x - 1] == overflow[x];
      }
      if SomeHome(sp, less, b) {
        var x :| 0 <= x < |less| && Home(sp, less[x].key) == b;
        assert overflow[if x < j then x else x + 1] == less[x];
      }
    }
  }

  lemma SameFlags<K, V>(sp: Space<K>, buckets: seq<Bucket<K, V>>, buckets': seq<Bucket<K, V>>, overflow: seq<Entry<K, V>>)
    requires Flagged(sp, buckets, overflow) && |buckets'| == |buckets|
    requires forall b: nat | b < |buckets| :: buckets'[b].overflow == buckets[b].overflow
    ensures Flagged(sp, buckets', overflow)
  {
  }
}
