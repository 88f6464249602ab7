/** The tsl hopscotch hash map: buckets with neighbourhood bits, an overflow container, and growth by rehashing. */
module HopscotchMap {
  import opened Arithmetic
  import opened Entries
  import opened Bags
  import opened Neighborhoods

  /** Where an element is. */
  datatype Position = InBucket(b: nat) | InOverflow(j: nat) | End

  const MIN_LOAD_FACTOR_FOR_REHASH: real := 0.1

  // ----- crowded homes

  ghost predicate AllFilled<K, V>(buckets: seq<Bucket<K, V>>, lo: nat, hi: nat) {
    forall x: nat | lo <= x < hi && x < |buckets| :: buckets[x].value.Some?
  }

  /** There is no empty bucket within the probing limit, or one out of reach that cannot be moved closer. */
  ghost predicate StuckAt<K, V>(buckets: seq<Bucket<K, V>>, reach: nat, home: nat) {
    || AllFilled(buckets, home, home + 12 * reach)
    || exists e: nat :: home + reach <= e < home + 12 * reach && e < |buckets| && buckets[e].value.None?
                        && AllFilled(buckets, home, e) && NoneMovable(buckets, reach, e, e)
  }

  /** The key in bucket `b` has another home among `m` buckets. */
  ghost predicate HomeChanges<K, V>(sp: Space<K>, buckets: seq<Bucket<K, V>>, b: nat, m: nat) {
    && b < |buckets| && buckets[b].value.Some?
    && Home(sp, buckets[b].value.value.key) != sp.policy.home(sp.hash(buckets[b].value.value.key), m)
  }

  /** Growing to the policy's next size gives some value in reach another home. */
  ghost predicate ChangesAt<K, V>(sp: Space<K>, buckets: seq<Bucket<K, V>>, home: nat) {
    sp.policy.next(sp.n).Some? && exists b: nat :: home <= b < home + sp.reach
                                                   && HomeChanges(sp, buckets, b, sp.policy.round(sp.policy.next(sp.n).value))
  }

  lemma FlagChangesNothing<K, V>(sp: Space<K>, buckets: seq<Bucket<K, V>>, home: nat)
    requires home < |buckets| && StuckAt(buckets, sp.reach, home)
    ensures var r := SetOverflow(buckets, home, true);
            StuckAt(r, sp.reach, home) && (ChangesAt(sp, r, home) ==> ChangesAt(sp, buckets, home))
  {
    hide Home;
    var r := SetOverflow(buckets, home, true);
    if e: nat :| home + sp.reach <= e < home + 12 * sp.reach && e < |buckets| && buckets[e].value.None?
                 && AllFilled(buckets, home, e) && NoneMovable(buckets, sp.reach, e, e) {
      assert AllFilled(r, home, e) && NoneMovable(r, sp.reach, e, e);
    }
    if ChangesAt(sp, r, home) {
      var m := sp.policy.round(sp.policy.next(sp.n).value);
      var b: nat :| home <= b < home + sp.reach && HomeChanges(sp, r, b, m);
      assert HomeChanges(sp, buckets, b, m);
    }
  }

  /** Values within reach that have not changed are as crowded as before. */
  lemma SameChanges<K, V>(sp: Space<K>, was: seq<Bucket<K, V>>, buckets: seq<Bucket<K, V>>, home: nat)
    requires |was| == |buckets| && ChangesAt(sp, buckets, home)
    requires forall x: nat | home <= x < home + sp.reach && x < |buckets| :: buckets[x].value == was[x].value
    ensures ChangesAt(sp, was, home)
  {
    hide Home;
    var m := sp.policy.round(sp.policy.next(sp.n).value);
    var b: nat :| home <= b < home + sp.reach && HomeChanges(sp, buckets, b, m);
    assert HomeChanges(sp, was, b, m);
  }

  // ----- how a table may grow

  /** The buckets that so many elements need at the maximum load. */
  function Enough(total: nat, f: real): nat {
    if f > 0.0 then
      CeilingNonNegative(total, f);
      Ceiling(total as real / f)
    else 0
  }

  /** With up to `total` elements a table of `x` buckets has a load at which it may grow, and then asks for `m`: the
      policy's next size, or what the elements need. */
  ghost predicate Asks(policy: Policy, f: real, total: nat, x: nat, m: nat) {
    && LoadOf(x, MIN_LOAD_FACTOR_FOR_REHASH) <= total && policy.next(x).Some? && policy.next(x).value <= m
    && (m == policy.next(x).value || m <= Enough(total, f))
  }

  /** The buckets have become `to` by growing from `from`, if they have grown at all. */
  ghost predicate GrownTo(policy: Policy, f: real, from: nat, to: nat, total: nat) {
    to == from || exists x: nat, m: nat :: from <= x && Asks(policy, f, total, x, m) && to == policy.round(m)
  }

  /** From `from` buckets on there is a size with a load at which it may grow, but no larger one: the policy has none, or
      it exceeds the maximum. */
  ghost predicate GrowthRefused(policy: Policy, most: nat, f: real, from: nat, total: nat) {
    exists x: nat ::
      && from <= x <= most && LoadOf(x, MIN_LOAD_FACTOR_FOR_REHASH) <= total
      && (policy.next(x).None? || exists m: nat :: Asks(policy, f, total, x, m) && policy.round(m) > most)
  }

  lemma CeilingNonNegative(total: nat, f: real)
    requires f > 0.0
    ensures Ceiling(total as real / f) >= 0
  {
    assert total as real / f >= 0.0;
  }

  lemma EnoughMonotone(a: nat, b: nat, f: real)
    requires a <= b
    ensures Enough(a, f) <= Enough(b, f)
  {
    if f > 0.0 {
      assert (b as real - a as real) / f >= 0.0;
      assert b as real / f == a as real / f + (b as real - a as real) / f;
    }
  }

  lemma AsksMore(policy: Policy, f: real, a: nat, b: nat, x: nat, m: nat)
    requires a <= b && Asks(policy, f, a, x, m)
    ensures Asks(policy, f, b, x, m)
  {
    EnoughMonotone(a, b, f);
  }

  lemma GrownStarts(policy: Policy, f: real, from: nat, total: nat)
    ensures GrownTo(policy, f, from, from, total)
  {
  }

  lemma GrownOn(policy: Policy, f: real, from: nat, mid: nat, to: nat, some: nat, total: nat)
    requires GrownTo(policy, f, from, mid, total) && from <= mid && GrownTo(policy, f, mid, to, some) && some <= total
    ensures GrownTo(policy, f, from, to, total)
  {
    if to != mid {
      var x: nat, m: nat :| mid <= x && Asks(policy, f, some, x, m) && to == policy.round(m);
      AsksMore(policy, f, some, total, x, m);
    }
  }

  lemma GrownBy(policy: Policy, f: real, from: nat, m: nat, some: nat, total: nat)
    requires Asks(policy, f, some, from, m) && some <= total
    ensures GrownTo(policy, f, from, policy.round(m), total)
  {
    AsksMore(policy, f, some, total, from, m);
  }

  lemma RefusedOn(policy: Policy, most: nat, f: real, from: nat, mid: nat, some: nat, total: nat)
    requires from <= mid && some <= total && GrowthRefused(policy, most, f, mid, some)
    ensures GrowthRefused(policy, most, f, from, total)
  {
    var x: nat :| mid <= x <= most && LoadOf(x, MIN_LOAD_FACTOR_FOR_REHASH) <= some
                  && (policy.next(x).None? || exists m: nat :: Asks(policy, f, some, x, m) && policy.round(m) > most);
    if m: nat :| Asks(policy, f, some, x, m) && policy.round(m) > most {
      AsksMore(policy, f, some, total, x, m);
    }
  }

  lemma GrownMore(policy: Policy, f: real, from: nat, to: nat, some: nat, total: nat)
    requires GrownTo(policy, f, from, to, some) && some <= total
    ensures GrownTo(policy, f, from, to, total)
  {
    GrownStarts(policy, f, from, total);
    GrownOn(policy, f, from, from, to, some, total);
  }

  lemma GrownThen(policy: Policy, f: real, from: nat, m: nat, to: nat, total: nat)
    requires Asks(policy, f, total, from, m) && from <= policy.round(m) && GrownTo(policy, f, policy.round(m), to, total)
    ensures GrownTo(policy, f, from, to, total)
  {
    GrownBy(policy, f, from, m, total, total);
    GrownOn(policy, f, from, policy.round(m), to, total, total);
  }

  lemma RefusedThen(policy: Policy, most: nat, f: real, from: nat, m: nat, total: nat)
    requires Asks(policy, f, total, from, m) && from <= policy.round(m) && from <= most
    requires policy.round(m) > most || GrowthRefused(policy, most, f, policy.round(m), total)
    ensures GrowthRefused(policy, most, f, from, total)
  {
    if policy.round(m) <= most {
      RefusedOn(policy, most, f, from, policy.round(m), total, total);
    }
  }

  lemma NoneRefused(policy: Policy, most: nat, f: real, n: nat, some: nat, total: nat)
    requires n <= most && LoadOf(n, MIN_LOAD_FACTOR_FOR_REHASH) <= some <= total && policy.next(n).None?
    ensures GrowthRefused(policy, most, f, n, total)
  {
  }

  lemma LoadRises(n: nat, f: real)
    requires 0.1 <= f
    ensures LoadOf(n, MIN_LOAD_FACTOR_FOR_REHASH) <= LoadOf(n, f)
  {
    ProductNonNegative(n as real, f - 0.1);
    assert n as real * 0.1 <= n as real * f;
  }

  class Hopscotch<K(==), V> {
    const hash: K -> Word64
    const policy: Policy
    const reach: nat
    const storeHash: bool
    /** Values are moved, not copied, on a rehash. */
    const moves: bool
    const maxBuckets: nat
    var n: nat
    var buckets: seq<Bucket<K, V>>
    var overflow: seq<Entry<K, V>>
    var count: nat
    var minLoad: int
    var maxLoad: int
    var maxLoadFactor: real

    ghost function Sp(): Space<K>
      reads `n
    {
      Space(hash, policy, n, reach)
    }

    ghost function Contents(): multiset<Entry<K, V>>
      reads `buckets, `overflow
    {
      Stored(buckets) + multiset(overflow)
    }

    ghost predicate Linked()
      reads `n, `buckets, `overflow
    {
      Neighborly(Sp(), buckets) && Flagged(Sp(), buckets, overflow)
    }

    /** The growth policy, and stored hash bits that suffice for every number of buckets when they are used at all. */
    ghost predicate Fixed() {
      && GoodPolicy(policy) && 4 <= reach <= 62
      && (storeHash ==> forall m: nat | policy.stored(m) :: policy.stored(maxBuckets))
    }

    ghost predicate Limits()
      reads `n, `minLoad, `maxLoad, `maxLoadFactor
    {
      && n <= maxBuckets && 0.1 <= maxLoadFactor <= 0.96
      && minLoad == LoadOf(n, MIN_LOAD_FACTOR_FOR_REHASH) && maxLoad == LoadOf(n, maxLoadFactor)
    }

    ghost predicate Valid()
      reads this
    {
      Fixed() && Linked() && Limits() && Unique(Contents()) && count == |Contents()|
    }

    lemma ValidFacts()
      requires Valid()
      ensures Fixed() && Linked() && Limits() && Unique(Contents()) && count == |Contents()|
      ensures GoodPolicy(policy) && 4 <= reach <= 62 && n <= maxBuckets && 0.1 <= maxLoadFactor <= 0.96
      ensures Neighborly(Sp(), buckets) && Flagged(Sp(), buckets, overflow)
      ensures |buckets| == (if n == 0 then 0 else n + reach - 1)
      ensures Contents() == Stored(buckets) + multiset(overflow)
      ensures Sp().n == n && Sp().reach == reach && Sp().hash == hash
    {
    }

    function BucketForHash(h: Word64): nat
      reads `n
    {
      if n == 0 then 0 else policy.home(h, n)
    }

    lemma HomeIs(key: K)
      requires Fixed()
      ensures BucketForHash(hash(key)) == Home(Sp(), key)
      ensures n > 0 ==> Home(Sp(), key) < n
    {
    }

    // ----- searching

    /** The neighbourhood bits of a bucket; the static empty bucket has none. */
    function NearOf(home: nat): set<nat>
      requires n == 0 || home < |buckets|
      reads `n, `buckets
    {
      if n == 0 then {} else buckets[home].near
    }

    /** Compares with the buckets whose bits are set in the home bucket. */
    method FindInBuckets(key: K, h: Word64, home: nat) returns (r: Option<nat>)
      requires Fixed() && Neighborly(Sp(), buckets) && home == Home(Sp(), key) && h == hash(key)
      ensures r.Some? ==> r.value < |buckets| && buckets[r.value].value.Some? && buckets[r.value].value.value.key == key
      ensures r.None? ==> NoBucketHas(buckets, key)
    {
      hide Neighborly, GoodPolicy, Home, Remaining, ShiftOut, Truncated, NoBucketHas, BitsOk;
      HomeIs(key);
      NeighborlyFacts(Sp(), buckets);
      var infos := NearOf(home);
      ghost var near := infos;
      var b: nat := home;
      RemainingStarts(near);
      NearBelow(Sp(), buckets, home, near);
      while infos != {}
        invariant home <= b && Remaining(infos, near, b - home) && near == NearOf(home)
        invariant forall x: nat | x < b - home && x in near :: home + x < |buckets| && buckets[home + x].value.Some?
                                                               && buckets[home + x].value.value.key != key
        decreases reach - (b - home)
      {
        RemainingNext(infos, near, b - home);
        RemainingSome(infos, near, b - home, reach);
        if 0 in infos {
          BitsAt(Sp(), buckets, home, b - home);
          ValueAt(Sp(), buckets, b);
          if !storeHash || buckets[b].hash == Truncated(h) {
            if buckets[b].value.value.key == key {
              return Some(b);
            }
          }
        }
        b := b + 1;
        infos := ShiftOut(infos);
      }
      RemainingNone(infos, near, b - home);
      NotInBuckets(Sp(), buckets, key, home, near);
      return None;
    }

    /** `std::find_if` over the overflow elements. */
    method FindInOverflow(key: K) returns (j: nat)
      ensures j <= |overflow| && (j < |overflow| ==> overflow[j].key == key)
      ensures j == |overflow| ==> forall x | 0 <= x < |overflow| :: overflow[x].key != key
    {
      j := 0;
      while j < |overflow|
        invariant j <= |overflow| && forall x | 0 <= x < j :: overflow[x].key != key
      {
        if overflow[j].key == key { return; }
        j := j + 1;
      }
    }

    ghost predicate Holds(p: Position, key: K)
      reads `buckets, `overflow
    {
      match p
      case InBucket(b) => b < |buckets| && buckets[b].value.Some? && buckets[b].value.value.key == key
      case InOverflow(j) => j < |overflow| && overflow[j].key == key
      case End => !HasKey(Contents(), key)
    }

    method FindImpl(key: K, h: Word64, home: nat) returns (p: Position)
      requires Valid() && home == Home(Sp(), key) && h == hash(key)
      ensures Holds(p, key)
    {
      hide *;
      ValidFacts();
      HomeIs(key);
      var found := FindInBuckets(key, h, home);
      if found.Some? {
        FoundInBucket(key, found.value);
        return InBucket(found.value);
      }
      if n == 0 || !buckets[home].overflow {
        NotFlagged(Sp(), buckets, overflow, key);
        NotFound(key);
        return End;
      }
      var j := FindInOverflow(key);
      if j < |overflow| {
        FoundInOverflow(key, j);
        return InOverflow(j);
      }
      NotFound(key);
      return End;
    }

    lemma FoundInBucket(key: K, b: nat)
      requires b < |buckets| && buckets[b].value.Some? && buckets[b].value.value.key == key
      ensures Holds(InBucket(b), key)
    {
    }

    lemma FoundInOverflow(key: K, j: nat)
      requires j < |overflow| && overflow[j].key == key
      ensures Holds(InOverflow(j), key)
    {
    }

    lemma NotFound(key: K)
      requires NoBucketHas(buckets, key) && forall j | 0 <= j < |overflow| :: overflow[j].key != key
      ensures Holds(End, key)
    {
      forall e | e in Contents()
        ensures e.key != key
      {
        if e in Stored(buckets) {
          var b := GatherMember(Values(buckets), e);
        } else {
          assert e in multiset(overflow);
          assert e in overflow;
        }
      }
    }

    /** The value of a key. */
    method TryGet(key: K) returns (value: Option<V>)
      requires Valid()
      ensures value == if key in MapOf(Contents()) then Some(MapOf(Contents())[key]) else None
    {
      hide *;
      ValidFacts();
      HomeIs(key);
      var p := FindImpl(key, hash(key), BucketForHash(hash(key)));
      HoldsValue(p, key);
      match p
      case InBucket(b) => return Some(buckets[b].value.value.value);
      case InOverflow(j) => return Some(overflow[j].value);
      case End => return None;
    }

    lemma HoldsValue(p: Position, key: K)
      requires Unique(Contents()) && Holds(p, key)
      ensures p.InBucket? ==> p.b < |buckets| && buckets[p.b].value.Some? && buckets[p.b].value.value in Contents()
                              && key in MapOf(Contents()) && MapOf(Contents())[key] == buckets[p.b].value.value.value
      ensures p.InOverflow? ==> p.j < |overflow| && overflow[p.j] in Contents()
                                && key in MapOf(Contents()) && MapOf(Contents())[key] == overflow[p.j].value
      ensures p.End? <==> key !in MapOf(Contents())
      ensures p.End? <==> !HasKey(Contents(), key)
    {
      MapOfKey(Contents(), key);
      match p
      case InBucket(b) =>
        GatherAt(Values(buckets), b);
        MapOfAt(Contents(), buckets[b].value.value);
      case InOverflow(j) =>
        assert overflow[j] in multiset(overflow);
        MapOfAt(Contents(), overflow[j]);
      case End =>
    }

    // ----- making room near a home bucket

    ghost predicate Filled(lo: nat, hi: nat)
      reads `buckets
    {
      AllFilled(buckets, lo, hi)
    }

    /** The first empty bucket within the probing limit, or the number of buckets. */
    method FindEmptyBucket(start: nat) returns (b: nat)
      requires start <= |buckets| && reach >= 4
      ensures b <= |buckets|
      ensures b < |buckets| ==> start <= b < start + 12 * reach && buckets[b].value.None? && Filled(start, b)
      ensures b == |buckets| ==> Filled(start, start + 12 * reach)
    {
      var limit := if start + 12 * reach < |buckets| then start + 12 * reach else |buckets|;
      b := start;
      while b < limit
        invariant start <= b <= limit && Filled(start, b)
      {
        if buckets[b].value.None? { return; }
        b := b + 1;
      }
      b := |buckets|;
    }

    /** Moves a value of an earlier home into the empty bucket, which becomes free nearer to the front; the first that
        can be moved is taken. */
    method SwapEmptyBucketCloser(e: nat) returns (moved: bool, b: nat)
      requires Neighborly(Sp(), buckets) && reach <= e < |buckets| && buckets[e].value.None?
      modifies `buckets
      ensures Neighborly(Sp(), buckets) && |buckets| == old(|buckets|) && Stored(buckets) == Stored(old(buckets))
      ensures forall x: nat | x < |buckets| :: buckets[x].overflow == old(buckets)[x].overflow
      ensures moved ==> e - reach < b < e && buckets[b].value.None?
      ensures moved ==> forall x: nat | x < |buckets| :: buckets[x].value.Some? <==> x == e
                                                                                     || (x != b && old(buckets)[x].value.Some?)
      ensures moved ==> forall x: nat | x < |buckets| && x != b ::
                          buckets[x].value == old(buckets)[if x == e then b else x].value
      ensures moved ==> exists c: nat :: FirstMovable(old(buckets), reach, e, c, b)
      ensures !moved ==> b == e && buckets == old(buckets) && NoneMovable(buckets, reach, e, e)
    {
      hide *;
      NeighborlyFacts(Sp(), buckets);
      SpaceIs();
      var toCheck: nat := e - reach + 1;
      NoneMovableYet(buckets, reach, e);
      while toCheck < e
        invariant e - reach < toCheck <= e && buckets == old(buckets) && NoneMovable(buckets, reach, e, toCheck)
      {
        var infos := buckets[toCheck].near;
        var toSwap: nat := toCheck;
        RemainingStarts(infos);
        while infos != {} && toSwap < e
          invariant toCheck <= toSwap <= e && buckets == old(buckets)
          invariant Remaining(infos, buckets[toCheck].near, toSwap - toCheck)
          invariant forall i: nat | i < toSwap - toCheck :: i !in buckets[toCheck].near
          decreases e - toSwap
        {
          RemainingNext(infos, buckets[toCheck].near, toSwap - toCheck);
          if 0 in infos {
            MoveKeeps(Sp(), buckets, toCheck, toSwap - toCheck, e);
            IsFirstMovable(buckets, reach, e, toCheck, toSwap);
            MovedValues(buckets, toCheck, toSwap, e);
            buckets := SwapValue(buckets, toSwap, e);
            buckets := Toggle(buckets, toCheck, e - toCheck);
            buckets := Toggle(buckets, toCheck, toSwap - toCheck);
            return true, toSwap;
          }
          toSwap := toSwap + 1;
          infos := ShiftOut(infos);
        }
        NoneLeftOf(infos, buckets[toCheck].near, toSwap - toCheck, toCheck, e);
        NoneMovableNext(buckets, reach, e, toCheck);
        toCheck := toCheck + 1;
      }
      return false, e;
    }

    lemma SpaceIs()
      ensures Sp().n == n && Sp().reach == reach && Sp().hash == hash && Sp().policy == policy
    {
    }

    method InsertInBucket(b: nat, home: nat, h: Word64, e: Entry<K, V>)
      requires Linked() && home < n && home <= b < home + reach && b < |buckets| && buckets[b].value.None?
      requires home == Home(Sp(), e.key) && Truncated(h) == Truncated(hash(e.key))
      modifies `buckets, `count
      ensures Linked() && Contents() == old(Contents()) + multiset{e} && count == old(count) + 1
      ensures Holds(InBucket(b), e.key)
    {
      hide Neighborly, Flagged, Home, Stored, Truncated, Flip, HasKey;
      PutKeeps(Sp(), buckets, home, b, e);
      SameFlags(Sp(), buckets, Toggle(SetValue(buckets, b, Truncated(h), e), home, b - home), overflow);
      buckets := SetValue(buckets, b, Truncated(h), e);
      buckets := Toggle(buckets, home, b - home);
      count := count + 1;
    }

    method InsertInOverflow(home: nat, e: Entry<K, V>) returns (j: nat)
      requires Linked() && n > 0 && home == Home(Sp(), e.key) < |buckets|
      modifies `buckets, `overflow, `count
      ensures Linked() && Contents() == old(Contents()) + multiset{e} && count == old(count) + 1
      ensures j == old(|overflow|) && Holds(InOverflow(j), e.key)
      ensures buckets == SetOverflow(old(buckets), home, true)
    {
      hide Neighborly, Flagged, Home, Stored, HasKey;
      OverflowGrows(Sp(), buckets, overflow, e);
      SameBits(Sp(), buckets, SetOverflow(buckets, home, true));
      SameStored(buckets, SetOverflow(buckets, home, true));
      j := |overflow|;
      overflow := overflow + [e];
      buckets := SetOverflow(buckets, home, true);
      count := count + 1;
    }

    ghost predicate Stuck(home: nat)
      reads `buckets
    {
      StuckAt(buckets, reach, home)
    }

    /** The values within reach of a home are what they were, and there is one in every bucket. */
    ghost predicate SameNear(was: seq<Bucket<K, V>>, home: nat)
      requires |was| == |buckets|
      reads `buckets
    {
      && Filled(home, home + reach)
      && forall x: nat | home <= x < home + reach && x < |buckets| :: buckets[x].value == was[x].value
    }

    lemma StuckIsFilled(home: nat)
      requires Stuck(home)
      ensures Filled(home, home + reach)
    {
    }

    /** Puts a value within reach of its home, moving the empty bucket closer while it is out of reach. Without success
        the buckets within reach are all filled, and nothing can be moved any more. */
    method TryPlace(home: nat, h: Word64, e: Entry<K, V>) returns (placed: bool, b: nat)
      requires Linked() && reach >= 4 && home < n && home == Home(Sp(), e.key) && Truncated(h) == Truncated(hash(e.key))
      modifies `buckets, `count
      ensures Linked()
      ensures placed ==> Contents() == old(Contents()) + multiset{e} && count == old(count) + 1 && Holds(InBucket(b), e.key)
      ensures placed ==> home <= b < home + reach
      ensures !placed ==> Contents() == old(Contents()) && count == old(count) && Stuck(home)
      ensures !placed ==> |buckets| == old(|buckets|) && SameNear(old(buckets), home)
    {
      hide *;
      LinkedFacts();
      SpaceIs();
      b := FindEmptyBucket(home);
      FilledIs(home, b);
      if b < |buckets| {
        while true
          invariant Linked() && Neighborly(Sp(), buckets) && Flagged(Sp(), buckets, overflow)
          invariant Contents() == old(Contents()) && count == old(count)
          invariant Contents() == Stored(buckets) + multiset(overflow)
          invariant home <= b < |buckets| && buckets[b].value.None? && |buckets| == old(|buckets|)
          invariant b < home + 12 * reach
          invariant forall x: nat | home <= x < b :: buckets[x].value.Some?
          invariant b >= home + reach ==>
                      forall x: nat | home <= x < home + reach && x < |buckets| :: buckets[x].value == old(buckets)[x].value
          decreases b
        {
          if b - home < reach {
            InsertInBucket(b, home, h, e);
            return true, b;
          }
          ghost var was := buckets;
          var moved;
          moved, b := SwapEmptyBucketCloser(b);
          SameFlags(Sp(), was, buckets, overflow);
          LinkedAgain();
          if !moved {
            NothingMoves(home, b, old(buckets));
            return false, b;
          }
        }
      }
      NothingEmpty(home, old(buckets));
      return false, b;
    }

    lemma FilledIs(lo: nat, hi: nat)
      ensures Filled(lo, hi) <==> forall x: nat | lo <= x < hi && x < |buckets| :: buckets[x].value.Some?
    {
    }

    lemma NothingMoves(home: nat, e: nat, was: seq<Bucket<K, V>>)
      requires home + reach <= e < home + 12 * reach && e < |buckets| == |was| && buckets[e].value.None?
      requires NoneMovable(buckets, reach, e, e) && forall x: nat | home <= x < e :: buckets[x].value.Some?
      requires forall x: nat | home <= x < home + reach && x < |buckets| :: buckets[x].value == was[x].value
      ensures Stuck(home) && SameNear(was, home)
    {
      assert Filled(home, e);
    }

    lemma NothingEmpty(home: nat, was: seq<Bucket<K, V>>)
      requires Filled(home, home + 12 * reach) && was == buckets
      ensures Stuck(home) && SameNear(was, home)
    {
    }

    lemma LinkedFacts()
      requires Linked()
      ensures Neighborly(Sp(), buckets) && Flagged(Sp(), buckets, overflow)
      ensures |buckets| == (if n == 0 then 0 else n + reach - 1)
      ensures Contents() == Stored(buckets) + multiset(overflow)
    {
    }

    lemma LinkedAgain()
      requires Neighborly(Sp(), buckets) && Flagged(Sp(), buckets, overflow)
      ensures Linked() && Contents() == Stored(buckets) + multiset(overflow)
    {
    }

    // ----- growing

    /** A hash that finds the key's bucket among any number of buckets: all of it, or the stored bits where they suffice. */
    ghost predicate SafeHash(h: Word64, key: K) {
      h == hash(key) || (h == Truncated(hash(key)) && policy.stored(maxBuckets))
    }

    lemma SafeHome(h: Word64, key: K)
      requires Fixed() && n <= maxBuckets && SafeHash(h, key)
      ensures BucketForHash(h) == Home(Sp(), key) && Truncated(h) == Truncated(hash(key))
      ensures forall m: nat | 0 < m <= maxBuckets :: policy.home(h, m) == policy.home(hash(key), m)
    {
    }

    /** The stored hash of a bucket where that may be used, the hash of its key otherwise. */
    function HashIn(b: nat, useStored: bool): Word64
      requires b < |buckets| && buckets[b].value.Some?
      reads `buckets
    {
      if useStored then buckets[b].hash else hash(buckets[b].value.value.key)
    }

    lemma HashInIs(b: nat, useStored: bool)
      requires Fixed() && Neighborly(Sp(), buckets) && b < |buckets| && buckets[b].value.Some?
      requires useStored ==> storeHash && exists m: nat :: policy.stored(m)
      ensures SafeHash(HashIn(b, useStored), buckets[b].value.value.key)
    {
      ValueAt(Sp(), buckets, b);
    }

    function UseStored(m: nat): bool {
      storeHash && policy.stored(m)
    }

    /** Stored bits that suffice for `m` buckets find the key's home among so many and among the present ones. */
    lemma StoredHome(b: nat, m: nat)
      requires Fixed() && Neighborly(Sp(), buckets) && 0 < n <= m && b < |buckets| && buckets[b].value.Some?
      ensures var h, key := HashIn(b, UseStored(m)), buckets[b].value.value.key;
              BucketForHash(h) == Home(Sp(), key) && policy.home(h, m) == policy.home(hash(key), m)
    {
      ValueAt(Sp(), buckets, b);
    }

    ghost predicate Changes(home: nat)
      reads `buckets, `n
    {
      ChangesAt(Sp(), buckets, home)
    }

    /** Whether some value near the bucket would have another home after growing; nothing when the policy cannot grow. */
    method WillNeighborhoodChangeOnRehash(home: nat) returns (r: Option<bool>)
      requires Fixed() && Neighborly(Sp(), buckets) && 0 < n && home < n && Filled(home, home + reach)
      ensures r.None? <==> policy.next(n).None?
      ensures r.Some? ==> (r.value <==> Changes(home))
    {
      hide Neighborly, Home, Truncated;
      NeighborlyFacts(Sp(), buckets);
      var next := policy.next(n);
      if next.None? { return None; }
      var expanded := policy.round(next.value);
      RoundIsMore(next.value);
      var useStored := UseStored(expanded);
      var b := home;
      while b < |buckets| && b - home < reach
        invariant home <= b <= home + reach && b <= |buckets|
        invariant forall x: nat | home <= x < b :: !HomeChanges(Sp(), buckets, x, expanded)
        decreases |buckets| - b
      {
        StoredHome(b, expanded);
        var h := HashIn(b, useStored);
        if BucketForHash(h) != policy.home(h, expanded) {
          assert HomeChanges(Sp(), buckets, b, expanded);
          return Some(true);
        }
        b := b + 1;
      }
      return Some(false);
    }

    /** The elements in buckets have reached the maximum load. */
    predicate AtLimit()
      reads `count, `overflow, `maxLoad
    {
      count - |overflow| >= maxLoad
    }

    /** The table has the load for growing, and growing would spread the values that fill the reach of a home. */
    ghost predicate Crowded(home: nat)
      reads `count, `minLoad, `buckets, `n
    {
      count >= minLoad && Filled(home, home + reach) && Changes(home)
    }

    /** What sends a value to the overflow container: it cannot be placed near its home, and the table was too empty to
        grow or growing would not spread the values there. */
    ghost predicate Spilled(home: nat)
      reads `count, `minLoad, `buckets, `n
    {
      n > 0 && Stuck(home) && (count <= minLoad || !Changes(home))
    }

    /** The buckets that a rehash asks for. */
    function Demand(wanted: nat): (m: nat)
      reads `count, `maxLoadFactor
      ensures m >= wanted
    {
      var needed := Enough(count, maxLoadFactor);
      if wanted < needed then needed else wanted
    }

    /** Inserts a value whose key is not there: within reach of its home when it can be placed, in the overflow container
        when the table is too empty to grow or growing would not spread the values near the home, otherwise after growing.
        Fails only when growing is refused. */
    method InsertValue(home: nat, h: Word64, e: Entry<K, V>) returns (p: Option<Position>)
      requires Valid() && !HasKey(Contents(), e.key) && home == Home(Sp(), e.key) && SafeHash(h, e.key)
      modifies this
      ensures p.Some? ==> Valid() && Contents() == old(Contents()) + multiset{e} && Holds(p.value, e.key) && !p.value.End?
      ensures p.Some? ==> GrownTo(policy, maxLoadFactor, old(n), n, old(count) + 1)
      ensures p.Some? && n != old(n) ==> old(AtLimit() || Crowded(home))
      ensures p.Some? && p.value.InOverflow? ==> Spilled(Home(Sp(), e.key))
      ensures p.None? ==> GrowthRefused(policy, maxBuckets, maxLoadFactor, old(n), old(count) + 1)
      ensures p.None? && !moves ==> Valid() && Contents() == old(Contents())
      ensures n >= old(n) && maxLoadFactor == old(maxLoadFactor)
      decreases Room(maxBuckets, n), 1
    {
      hide *;
      ValidFacts();
      AtLimitIs();
      CrowdedParts(home);
      UniqueInsert(Contents(), e);
      ghost var total, sp := count + 1, Sp();
      var at := home;
      if count - |overflow| >= maxLoad {
        LimitIsLoad();
        var ok := GrowOnce();
        if !ok {
          RefusedOn(policy, maxBuckets, maxLoadFactor, old(n), old(n), old(count), total);
          return None;
        }
        GrownMore(policy, maxLoadFactor, old(n), n, old(count), total);
        at := BucketForHash(h);
        ValidFacts();
      } else {
        GrownStarts(policy, maxLoadFactor, n, total);
        HasBuckets();
      }
      SafeHome(h, e.key);
      HomeIs(e.key);
      ghost var before, mid, was := Contents(), n, buckets;
      var placed, b := TryPlace(at, h, e);
      if placed {
        StillValid(before, e);
        return Some(InBucket(b));
      }
      SameValid(before);
      SameCrowd(was, at);
      p := InsertCrowded(at, h, e);
      if p.Some? {
        GrownOn(policy, maxLoadFactor, old(n), mid, n, total, total);
      } else {
        RefusedOn(policy, maxBuckets, maxLoadFactor, old(n), mid, total, total);
      }
    }

    /** Inserts a value that cannot be placed near its home: in the overflow container, or after growing. */
    method InsertCrowded(home: nat, h: Word64, e: Entry<K, V>) returns (p: Option<Position>)
      requires Valid() && !HasKey(Contents(), e.key) && home == Home(Sp(), e.key) && SafeHash(h, e.key)
      requires n > 0 && Stuck(home)
      modifies this
      ensures p.Some? ==> Valid() && Contents() == old(Contents()) + multiset{e} && Holds(p.value, e.key) && !p.value.End?
      ensures p.Some? ==> GrownTo(policy, maxLoadFactor, old(n), n, old(count) + 1)
      ensures p.Some? && n != old(n) ==> old(Crowded(home))
      ensures p.Some? && p.value.InOverflow? ==> Spilled(Home(Sp(), e.key))
      ensures p.None? ==> GrowthRefused(policy, maxBuckets, maxLoadFactor, old(n), old(count) + 1)
      ensures p.None? && !moves ==> Valid() && Contents() == old(Contents())
      ensures n >= old(n) && maxLoadFactor == old(maxLoadFactor)
      decreases Room(maxBuckets, n), 0
    {
      hide *;
      ValidFacts();
      HomeIs(e.key);
      StuckIsFilled(home);
      CrowdedIs(home);
      MinLoadIs();
      ghost var before, total, was := Contents(), count + 1, buckets;
      var change := Some(false);
      if count >= minLoad {
        change := WillNeighborhoodChangeOnRehash(home);
        if change.None? {
          NoneRefused(policy, maxBuckets, maxLoadFactor, n, count, total);
          return None;
        }
      }
      if !change.value {
        SpillIs(was, home);
        var j := InsertInOverflow(home, e);
        StillValid(before, e);
        SpilledNow(was, home);
        GrownStarts(policy, maxLoadFactor, n, total);
        return Some(InOverflow(j));
      }
      var ok := GrowOnce();
      if !ok {
        RefusedOn(policy, maxBuckets, maxLoadFactor, old(n), old(n), old(count), total);
        return None;
      }
      GrownMore(policy, maxLoadFactor, old(n), n, old(count), total);
      ghost var mid := n;
      ValidFacts();
      SafeHome(h, e.key);
      HomeIs(e.key);
      p := InsertValue(BucketForHash(h), h, e);
      if p.Some? {
        GrownOn(policy, maxLoadFactor, old(n), mid, n, total, total);
      } else {
        RefusedOn(policy, maxBuckets, maxLoadFactor, old(n), mid, total, total);
      }
    }

    /** `rehash(next_bucket_count())`. */
    method GrowOnce() returns (ok: bool)
      requires Valid() && LoadOf(n, MIN_LOAD_FACTOR_FOR_REHASH) <= count
      modifies this
      ensures ok ==> Valid() && Contents() == old(Contents()) && n > old(n) && Room(maxBuckets, n) < Room(maxBuckets, old(n))
      ensures ok ==> GrownTo(policy, maxLoadFactor, old(n), n, old(count))
      ensures !ok ==> GrowthRefused(policy, maxBuckets, maxLoadFactor, old(n), old(count)) && n == old(n)
      ensures !ok && !moves ==> Valid() && Contents() == old(Contents())
      ensures maxLoadFactor == old(maxLoadFactor)
      decreases Room(maxBuckets, n) - 1, 7
    {
      hide *;
      ValidFacts();
      var next := policy.next(n);
      if next.None? {
        NoneRefused(policy, maxBuckets, maxLoadFactor, n, count, count);
        return false;
      }
      NextIsMore(n);
      GrowthAsks(next.value);
      ghost var m := Demand(next.value);
      ok := Rehash(next.value);
      if ok {
        GrownThen(policy, maxLoadFactor, old(n), m, n, old(count));
        NotFullAnyMore(next.value);
      } else {
        RefusedThen(policy, maxBuckets, maxLoadFactor, old(n), m, old(count));
      }
    }

    lemma AtLimitIs()
      ensures AtLimit() <==> count - |overflow| >= maxLoad
    {
    }

    lemma LimitIsLoad()
      requires Valid() && count - |overflow| >= maxLoad
      ensures LoadOf(n, MIN_LOAD_FACTOR_FOR_REHASH) <= count
    {
      LoadRises(n, maxLoadFactor);
    }

    lemma MinLoadIs()
      requires Valid()
      ensures minLoad == LoadOf(n, MIN_LOAD_FACTOR_FOR_REHASH)
    {
    }

    lemma GrowthAsks(next: nat)
      requires Valid() && policy.next(n) == Some(next) && LoadOf(n, MIN_LOAD_FACTOR_FOR_REHASH) <= count
      ensures Asks(policy, maxLoadFactor, count, n, Demand(next)) && n < policy.round(Demand(next))
    {
      hide LoadOf, Linked, Unique, Contents;
    }

    lemma CrowdedIs(home: nat)
      ensures Crowded(home) <==> count >= minLoad && Filled(home, home + reach) && Changes(home)
    {
    }

    lemma CrowdedParts(home: nat)
      ensures Crowded(home) <==>
              count >= minLoad && AllFilled(buckets, home, home + reach) && ChangesAt(Sp(), buckets, home)
    {
    }

    lemma SameCrowd(was: seq<Bucket<K, V>>, home: nat)
      requires |was| == |buckets| && SameNear(was, home)
      ensures Crowded(home) ==> count >= minLoad && AllFilled(was, home, home + reach) && ChangesAt(Sp(), was, home)
    {
      if Changes(home) {
        SameChanges(Sp(), was, buckets, home);
      }
    }

    lemma SpillIs(was: seq<Bucket<K, V>>, home: nat)
      requires was == buckets && Stuck(home)
      ensures StuckAt(was, reach, home) && (Changes(home) <==> ChangesAt(Sp(), was, home))
    {
    }

    lemma SpilledNow(was: seq<Bucket<K, V>>, home: nat)
      requires n > 0 && home < |was| && buckets == SetOverflow(was, home, true) && StuckAt(was, reach, home)
      requires count <= minLoad || !ChangesAt(Sp(), was, home)
      ensures Spilled(home)
    {
      FlagChangesNothing(Sp(), was, home);
    }

    lemma NextIsMore(m: nat)
      requires Fixed() && policy.next(m).Some? && m <= maxBuckets
      ensures policy.next(m).value > m && Room(maxBuckets, policy.next(m).value) < Room(maxBuckets, m)
    {
    }

    lemma NotFullAnyMore(m: nat)
      requires n >= m > 0
      ensures n > 0 && Room(maxBuckets, n) <= Room(maxBuckets, m)
    {
    }

    /** A table without buckets is full. */
    lemma HasBuckets()
      requires Valid() && count - |overflow| < maxLoad
      ensures n > 0
    {
    }

    lemma StillValid(before: multiset<Entry<K, V>>, e: Entry<K, V>)
      requires Fixed() && Linked() && Limits() && Unique(before) && !HasKey(before, e.key)
      requires Contents() == before + multiset{e} && count == |before| + 1
      ensures Valid()
    {
      UniqueInsert(before, e);
    }

    lemma SameValid(before: multiset<Entry<K, V>>)
      requires Fixed() && Linked() && Limits() && Unique(before) && Contents() == before && count == |before|
      ensures Valid()
    {
    }

    /** `rehash`: at least so many buckets, and enough for the elements at the maximum load. */
    method Rehash(wanted: nat) returns (ok: bool)
      requires Valid()
      modifies this
      ensures ok ==> Valid() && Contents() == old(Contents()) && n >= wanted
                     && Room(maxBuckets, n) <= Room(maxBuckets, wanted)
      ensures !ok && !moves ==> Valid() && Contents() == old(Contents()) && n == old(n)
      ensures ok ==> GrownTo(policy, maxLoadFactor, policy.round(old(Demand(wanted))), n, old(count))
      ensures policy.round(old(Demand(wanted))) > maxBuckets ==> !ok
      ensures !ok ==> policy.round(old(Demand(wanted))) > maxBuckets
                      || GrowthRefused(policy, maxBuckets, maxLoadFactor, policy.round(old(Demand(wanted))), old(count))
      ensures maxLoadFactor == old(maxLoadFactor) && (!ok ==> n == old(n))
      decreases Room(maxBuckets, wanted), 6
    {
      hide *;
      ValidFacts();
      DemandIs(wanted);
      var needed := Ceiling(count as real / maxLoadFactor);
      var m: nat := if wanted < needed then needed else wanted;
      EnoughIsPositive(wanted, m);
      ok := RehashImpl(m);
    }

    lemma DemandIs(wanted: nat)
      requires Valid()
      ensures maxLoadFactor > 0.0
      ensures var needed := Ceiling(count as real / maxLoadFactor); Demand(wanted) == if wanted < needed then needed else wanted
    {
    }

    lemma EnoughIsPositive(wanted: nat, m: nat)
      requires Valid() && m >= Ceiling(count as real / maxLoadFactor) && m >= wanted
      ensures maxLoadFactor > 0.0 && (m == 0 ==> Contents() == multiset{})
      ensures Room(maxBuckets, m) <= Room(maxBuckets, wanted)
    {
      hide Linked, Unique, GoodPolicy, LoadOf, Contents;
      NeededIsPositive(count, maxLoadFactor);
    }

    /** A new table with at least so many buckets takes the elements of this one, then takes its place. */
    method RehashImpl(m: nat) returns (ok: bool)
      requires Valid() && (m == 0 ==> Contents() == multiset{})
      modifies this
      ensures ok ==> Valid() && Contents() == old(Contents()) && n >= m && Room(maxBuckets, n) <= Room(maxBuckets, m)
      ensures !ok && !moves ==> Valid() && Contents() == old(Contents())
      ensures ok ==> policy.round(m) <= maxBuckets && GrownTo(policy, maxLoadFactor, policy.round(m), n, old(count))
      ensures !ok ==> policy.round(m) > maxBuckets
                      || GrowthRefused(policy, maxBuckets, maxLoadFactor, policy.round(m), old(count))
      ensures maxLoadFactor == old(maxLoadFactor) && (!ok ==> n == old(n))
      decreases Room(maxBuckets, m), 5
    {
      hide *;
      ValidFacts();
      RoundIsMore(m);
      ClampedSame(maxLoadFactor);
      var made := policy.round(m);
      if made > maxBuckets { return false; }
      var newMap := new Hopscotch<K, V>(hash, policy, reach, storeHash, moves, maxBuckets, made, maxLoadFactor);
      MakeSameKind(newMap);
      if moves {
        ok := MoveInto(newMap);
      } else {
        ok := CopyInto(newMap);
      }
      if !ok { return false; }
      RoomLess(maxBuckets, newMap.n, m);
      n, buckets, overflow, count := newMap.n, newMap.buckets, newMap.overflow, newMap.count;
      minLoad, maxLoad, maxLoadFactor := newMap.minLoad, newMap.maxLoad, newMap.maxLoadFactor;
      TakesPlace(newMap);
    }

    lemma RoundIsMore(m: nat)
      requires Fixed()
      ensures policy.round(m) >= m && Room(maxBuckets, policy.round(m)) <= Room(maxBuckets, m)
    {
    }

    ghost predicate SameKind(other: Hopscotch<K, V>) {
      && other.hash == hash && other.policy == policy && other.reach == reach && other.storeHash == storeHash
      && other.moves == moves && other.maxBuckets == maxBuckets
    }

    lemma MakeSameKind(other: Hopscotch<K, V>)
      requires other.hash == hash && other.policy == policy && other.reach == reach && other.storeHash == storeHash
      requires other.moves == moves && other.maxBuckets == maxBuckets
      ensures SameKind(other)
    {
    }

    lemma TakesPlace(other: Hopscotch<K, V>)
      requires other.Valid() && SameKind(other)
      requires n == other.n && buckets == other.buckets && overflow == other.overflow && count == other.count
      requires minLoad == other.minLoad && maxLoad == other.maxLoad && maxLoadFactor == other.maxLoadFactor
      ensures Valid() && Contents() == other.Contents()
    {
    }

    /** `new_map.insert_value` for an element of this table. */
    method HandOver(newMap: Hopscotch<K, V>, h: Word64, e: Entry<K, V>) returns (ok: bool)
      requires newMap.Valid() && newMap != this && SameKind(newMap) && SafeHash(h, e.key)
               && !HasKey(newMap.Contents(), e.key)
      modifies newMap
      ensures ok ==> newMap.Valid() && newMap.Contents() == old(newMap.Contents()) + multiset{e}
      ensures ok ==> GrownTo(policy, newMap.maxLoadFactor, old(newMap.n), newMap.n, old(newMap.count) + 1)
      ensures !ok ==> GrowthRefused(policy, maxBuckets, newMap.maxLoadFactor, old(newMap.n), old(newMap.count) + 1)
      ensures newMap.n >= old(newMap.n) && newMap.maxLoadFactor == old(newMap.maxLoadFactor)
      decreases Room(maxBuckets, newMap.n), 2
    {
      hide *;
      newMap.ValidFacts();
      SafeThere(newMap, h, e.key);
      newMap.SafeHome(h, e.key);
      var p := newMap.InsertValue(newMap.BucketForHash(h), h, e);
      ok := p.Some?;
    }

    /** Copies every element, those in buckets first; this table is left as it is. */
    method CopyInto(newMap: Hopscotch<K, V>) returns (ok: bool)
      requires Valid() && newMap.Valid() && newMap != this && SameKind(newMap) && newMap.Contents() == multiset{}
      modifies newMap
      ensures ok ==> newMap.Valid() && newMap.Contents() == Contents()
      ensures ok ==> GrownTo(policy, newMap.maxLoadFactor, old(newMap.n), newMap.n, count)
      ensures !ok ==> GrowthRefused(policy, maxBuckets, newMap.maxLoadFactor, old(newMap.n), count)
      ensures newMap.n >= old(newMap.n) && newMap.maxLoadFactor == old(newMap.maxLoadFactor)
      decreases Room(maxBuckets, newMap.n), 4
    {
      hide *;
      ValidFacts();
      newMap.ValidFacts();
      ghost var values := Values(buckets);
      NothingYet(values);
      var useStored := UseStored(newMap.n);
      UseStoredFacts(newMap.n);
      GrownStarts(policy, newMap.maxLoadFactor, newMap.n, count);
      var b: nat := 0;
      while b < |buckets|
        invariant b <= |buckets| && newMap.Valid() && newMap.Contents() == Gather(values[..b])
        invariant newMap.n >= old(newMap.n) && newMap.maxLoadFactor == old(newMap.maxLoadFactor)
        invariant GrownTo(policy, newMap.maxLoadFactor, old(newMap.n), newMap.n, count)
      {
        NextGathered(buckets, overflow, b);
        if buckets[b].value.Some? {
          var e := buckets[b].value.value;
          HashInIs(b, useStored);
          UniquePart(Contents(), Gather(values[..b]), e);
          RoomLess(maxBuckets, newMap.n, old(newMap.n));
          newMap.ValidFacts();
          ghost var mid, some := newMap.n, newMap.count + 1;
          PartSize(Contents(), Gather(values[..b]), e);
          ok := HandOver(newMap, HashIn(b, useStored), e);
          if !ok {
            RefusedOn(policy, maxBuckets, newMap.maxLoadFactor, old(newMap.n), mid, some, count);
            return;
          }
          GrownOn(policy, newMap.maxLoadFactor, old(newMap.n), mid, newMap.n, some, count);
        }
        b := b + 1;
      }
      assert values[..b] == values;
      StoredIs(buckets);
      RoomLess(maxBuckets, newMap.n, old(newMap.n));
      ghost var mid := newMap.n;
      ok := CopyOverflowInto(newMap);
      if ok {
        GrownOn(policy, newMap.maxLoadFactor, old(newMap.n), mid, newMap.n, count, count);
      } else {
        RefusedOn(policy, maxBuckets, newMap.maxLoadFactor, old(newMap.n), mid, count, count);
      }
    }

    method CopyOverflowInto(newMap: Hopscotch<K, V>) returns (ok: bool)
      requires Valid() && newMap.Valid() && newMap != this && SameKind(newMap) && newMap.Contents() == Stored(buckets)
      modifies newMap
      ensures ok ==> newMap.Valid() && newMap.Contents() == Contents()
      ensures ok ==> GrownTo(policy, newMap.maxLoadFactor, old(newMap.n), newMap.n, count)
      ensures !ok ==> GrowthRefused(policy, maxBuckets, newMap.maxLoadFactor, old(newMap.n), count)
      ensures newMap.n >= old(newMap.n) && newMap.maxLoadFactor == old(newMap.maxLoadFactor)
      decreases Room(maxBuckets, newMap.n), 3
    {
      hide *;
      ValidFacts();
      assert Stored(buckets) + multiset(overflow[..0]) == Stored(buckets);
      GrownStarts(policy, newMap.maxLoadFactor, newMap.n, count);
      var j := 0;
      while j < |overflow|
        invariant j <= |overflow| && newMap.Valid() && newMap.Contents() == Stored(buckets) + multiset(overflow[..j])
        invariant newMap.n >= old(newMap.n) && newMap.maxLoadFactor == old(newMap.maxLoadFactor)
        invariant GrownTo(policy, newMap.maxLoadFactor, old(newMap.n), newMap.n, count)
      {
        NextOverflow(Stored(buckets), overflow, j);
        UniquePart(Contents(), Stored(buckets) + multiset(overflow[..j]), overflow[j]);
        OwnHash(overflow[j].key);
        RoomLess(maxBuckets, newMap.n, old(newMap.n));
        newMap.ValidFacts();
        ghost var mid, some := newMap.n, newMap.count + 1;
        PartSize(Contents(), Stored(buckets) + multiset(overflow[..j]), overflow[j]);
        ok := HandOver(newMap, hash(overflow[j].key), overflow[j]);
        if !ok {
          RefusedOn(policy, maxBuckets, newMap.maxLoadFactor, old(newMap.n), mid, some, count);
          return;
        }
        GrownOn(policy, newMap.maxLoadFactor, old(newMap.n), mid, newMap.n, some, count);
        j := j + 1;
      }
      assert overflow[..j] == overflow;
      return true;
    }

    lemma OwnHash(key: K)
      ensures SafeHash(hash(key), key)
    {
    }

    lemma UseStoredFacts(m: nat)
      ensures UseStored(m) ==> storeHash && exists x: nat :: policy.stored(x)
    {
    }

    lemma SafeThere(other: Hopscotch<K, V>, h: Word64, key: K)
      requires SameKind(other) && SafeHash(h, key)
      ensures other.SafeHash(h, key) && other.maxBuckets == maxBuckets && other.policy == policy
    {
    }

    /** Hands over the overflow elements, then moves the value of every bucket, removing it here. */
    method MoveInto(newMap: Hopscotch<K, V>) returns (ok: bool)
      requires Valid() && newMap.Valid() && newMap != this && SameKind(newMap) && newMap.Contents() == multiset{}
      requires newMap.n == 0 ==> Contents() == multiset{}
      modifies this`buckets, this`overflow, this`count, newMap
      ensures ok ==> newMap.Valid() && newMap.Contents() == old(Contents())
      ensures ok ==> GrownTo(policy, newMap.maxLoadFactor, old(newMap.n), newMap.n, old(count))
      ensures !ok ==> GrowthRefused(policy, maxBuckets, newMap.maxLoadFactor, old(newMap.n), old(count))
      ensures newMap.n >= old(newMap.n) && newMap.maxLoadFactor == old(newMap.maxLoadFactor)
      decreases Room(maxBuckets, newMap.n), 4
    {
      hide *;
      ValidFacts();
      ghost var total, size := Contents(), |buckets|;
      OverflowPart(Stored(buckets), overflow);
      UniqueSub(total, multiset(overflow));
      NoOverflow();
      newMap.TakeOverflow(overflow);
      overflow := [];
      CountsStored(Stored(buckets), total);
      var useStored := UseStored(newMap.n);
      UseStoredFacts(newMap.n);
      SpaceIs();
      GrownStarts(policy, newMap.maxLoadFactor, newMap.n, old(count));
      var b: nat := 0;
      while b < |buckets|
        invariant GrownTo(policy, newMap.maxLoadFactor, old(newMap.n), newMap.n, old(count))
        invariant b <= |buckets| == size && Fixed() && Neighborly(Sp(), buckets) && |Stored(buckets)| <= count
        invariant newMap.Valid() && newMap.Contents() + Stored(buckets) == total && n <= maxBuckets
        invariant forall x | 0 <= x < b :: buckets[x].value.None?
        invariant newMap.n >= old(newMap.n) && newMap.maxLoadFactor == old(newMap.maxLoadFactor)
      {
        if buckets[b].value.Some? {
          RoomLess(maxBuckets, newMap.n, old(newMap.n));
          ghost var mid := newMap.n;
          ok := MoveValue(newMap, b, useStored, total);
          if !ok {
            RefusedOn(policy, maxBuckets, newMap.maxLoadFactor, old(newMap.n), mid, |total|, old(count));
            return;
          }
          GrownOn(policy, newMap.maxLoadFactor, old(newMap.n), mid, newMap.n, |total|, old(count));
        }
        b := b + 1;
      }
      NoneStored(buckets);
      assert newMap.Contents() == total;
      return true;
    }

    /** Moves the value of a bucket to the new table. */
    method MoveValue(newMap: Hopscotch<K, V>, b: nat, useStored: bool, ghost total: multiset<Entry<K, V>>) returns (ok: bool)
      requires Fixed() && Neighborly(Sp(), buckets) && |Stored(buckets)| <= count && n <= maxBuckets
      requires b < |buckets| && buckets[b].value.Some? && (useStored ==> storeHash && exists m: nat :: policy.stored(m))
      requires newMap.Valid() && newMap != this && SameKind(newMap)
      requires Unique(total) && newMap.Contents() + Stored(buckets) == total
      modifies this`buckets, this`count, newMap
      ensures ok ==> newMap.Valid() && newMap.Contents() + Stored(buckets) == total
      ensures ok ==> GrownTo(policy, newMap.maxLoadFactor, old(newMap.n), newMap.n, |total|)
      ensures !ok ==> GrowthRefused(policy, maxBuckets, newMap.maxLoadFactor, old(newMap.n), |total|)
      ensures ok ==> Neighborly(Sp(), buckets) && |Stored(buckets)| <= count && |buckets| == old(|buckets|)
      ensures ok ==> forall x: nat | x < |buckets| :: buckets[x].value == if x == b then None else old(buckets)[x].value
      ensures newMap.n >= old(newMap.n) && newMap.maxLoadFactor == old(newMap.maxLoadFactor)
      decreases Room(maxBuckets, newMap.n), 3
    {
      hide *;
      var e := buckets[b].value.value;
      HashInIs(b, useStored);
      var h := HashIn(b, useStored);
      SafeHome(h, e.key);
      IsStored(buckets, b, newMap.Contents());
      UniquePart(total, newMap.Contents(), e);
      ghost var there, here, some := newMap.Contents(), Stored(buckets), newMap.count + 1;
      newMap.ValidFacts();
      PartSize(total, there, e);
      ok := HandOver(newMap, h, e);
      if !ok {
        RefusedOn(policy, maxBuckets, newMap.maxLoadFactor, old(newMap.n), old(newMap.n), some, |total|);
        return;
      }
      GrownMore(policy, newMap.maxLoadFactor, old(newMap.n), newMap.n, some, |total|);
      EraseFromBucket(b, BucketForHash(h));
      Handed(there, here, Stored(buckets), e);
    }

    lemma NoOverflow()
      requires Valid()
      ensures Contents() == multiset{} ==> overflow == []
    {
      if overflow != [] {
        assert overflow[0] in multiset(overflow);
      }
    }

    lemma CountsStored(stored: multiset<Entry<K, V>>, total: multiset<Entry<K, V>>)
      requires stored <= total && count == |total|
      ensures |stored| <= count
    {
      assert total == stored + (total - stored);
    }

    /** Takes over overflow elements and sets the overflow flags of their homes. */
    method TakeOverflow(elements: seq<Entry<K, V>>)
      requires Valid() && Contents() == multiset{} && Unique(multiset(elements)) && (n == 0 ==> elements == [])
      modifies `overflow, `count, `buckets
      ensures Valid() && Contents() == multiset(elements)
    {
      hide *;
      ValidFacts();
      NoOverflow();
      SpaceIs();
      ghost var stored := Stored(buckets);
      assert stored == multiset{};
      assert |multiset(elements)| == |elements|;
      assert overflow == elements[..0];
      overflow := elements;
      count := count + |elements|;
      var j := 0;
      while j < |elements|
        invariant j <= |elements| && Neighborly(Sp(), buckets) && Flagged(Sp(), buckets, elements[..j])
                  && Stored(buckets) == stored
        invariant |buckets| == (if n == 0 then 0 else n + reach - 1) && overflow == elements && count == |elements|
      {
        HomeIs(elements[j].key);
        OverflowGrows(Sp(), buckets, elements[..j], elements[j]);
        var home := BucketForHash(hash(elements[j].key));
        FlagKeeps(Sp(), buckets, home, true);
        assert elements[..j + 1] == elements[..j] + [elements[j]];
        buckets := SetOverflow(buckets, home, true);
        j := j + 1;
      }
      assert elements[..j] == elements;
      LinkedAgain();
      SameValid(multiset(elements));
    }

    // ----- erasure

    /** `erase_from_bucket`: empties a bucket and clears the bit in its value's home. */
    method EraseFromBucket(b: nat, home: nat)
      requires Neighborly(Sp(), buckets) && b < |buckets| && buckets[b].value.Some?
               && home == Home(Sp(), buckets[b].value.value.key)
      requires |Stored(buckets)| <= count
      modifies `buckets, `count
      ensures Neighborly(Sp(), buckets) && |buckets| == old(|buckets|) && count == old(count) - 1
      ensures Stored(buckets) + multiset{old(buckets)[b].value.value} == Stored(old(buckets)) && |Stored(buckets)| <= count
      ensures forall x: nat | x < |buckets| :: buckets[x].overflow == old(buckets)[x].overflow
      ensures forall x: nat | x < |buckets| :: buckets[x].value == if x == b then None else old(buckets)[x].value
    {
      hide Neighborly, Home, Stored, Flip;
      TakeKeeps(Sp(), buckets, b);
      var whole, e := Stored(buckets), buckets[b].value.value;
      buckets := RemoveValue(buckets, b);
      buckets := Toggle(buckets, home, b - home);
      assert |Stored(buckets) + multiset{e}| == |Stored(buckets)| + 1;
      count := count - 1;
    }

    /** `erase_from_overflow`: the overflow flag of the home goes with its last overflow element. */
    method EraseFromOverflow(j: nat, home: nat)
      requires Linked() && j < |overflow| && home == Home(Sp(), overflow[j].key) && count > 0 && Fixed()
      modifies `buckets, `overflow, `count
      ensures Linked() && overflow == old(overflow[..j] + overflow[j + 1..]) && count == old(count) - 1
      ensures Contents() + multiset{old(overflow)[j]} == old(Contents())
    {
      hide *;
      LinkedFacts();
      SpaceIs();
      ghost var was, g := overflow, Sp();
      HasHome(j);
      HomeIs(overflow[j].key);
      OverflowShrinks(g, buckets, overflow, j);
      TakenOut(Stored(buckets), overflow, j);
      overflow := overflow[..j] + overflow[j + 1..];
      count := count - 1;
      ghost var left, here := overflow, buckets;
      var x := 0;
      while x < |overflow|
        invariant overflow == left && buckets == here && count == old(count) - 1
        invariant x <= |overflow| && forall y | 0 <= y < x :: Home(g, overflow[y].key) != home
      {
        HomeIs(overflow[x].key);
        if BucketForHash(hash(overflow[x].key)) == home {
          IsSomeHome(g, overflow, x);
          LinkedAgain();
          return;
        }
        x := x + 1;
      }
      NoSomeHome(g, overflow, home);
      FlagKeeps(g, buckets, home, false);
      buckets := SetOverflow(buckets, home, false);
      LinkedAgain();
    }

    lemma HasHome(j: nat)
      requires Linked() && j < |overflow|
      ensures n > 0
    {
    }

    /** Erases a key; 1 when it was there, 0 otherwise. */
    method EraseKey(key: K) returns (erased: nat)
      requires Valid()
      modifies `buckets, `overflow, `count
      ensures Valid() && erased == if key in old(MapOf(Contents())) then 1 else 0
      ensures MapOf(Contents()) == old(MapOf(Contents())) - {key}
    {
      hide *;
      ValidFacts();
      HomeIs(key);
      var p := FindImpl(key, hash(key), BucketForHash(hash(key)));
      HoldsValue(p, key);
      if p.End? {
        assert MapOf(Contents()) - {key} == MapOf(Contents());
        return 0;
      }
      HoldsFacts(p, key);
      EntryAtIs(p);
      EraseAt(p);
      return 1;
    }

    lemma HoldsFacts(p: Position, key: K)
      requires Holds(p, key)
      ensures p.InBucket? ==> p.b < |buckets| && buckets[p.b].value.Some? && buckets[p.b].value.value.key == key
      ensures p.InOverflow? ==> p.j < |overflow| && overflow[p.j].key == key
    {
    }

    function EntryAt(p: Position): Entry<K, V>
      requires match p case InBucket(b) => b < |buckets|
               && buckets[b].value.Some? case InOverflow(j) => j < |overflow| case End => false
      reads `buckets, `overflow
    {
      match p
      case InBucket(b) => buckets[b].value.value
      case InOverflow(j) => overflow[j]
    }

    /** `erase(iterator)`. */
    method EraseAt(p: Position)
      requires Valid()
      requires match p case InBucket(b) => b < |buckets|
               && buckets[b].value.Some? case InOverflow(j) => j < |overflow| case End => false
      modifies `buckets, `overflow, `count
      ensures Valid() && Contents() + multiset{old(EntryAt(p))} == old(Contents())
      ensures MapOf(Contents()) == old(MapOf(Contents())) - {old(EntryAt(p)).key}
    {
      hide *;
      ValidFacts();
      ghost var before, e := Contents(), EntryAt(p);
      EntryAtIs(p);
      var home := BucketForHash(hash(EntryAt(p).key));
      HomeIs(EntryAt(p).key);
      match p {
        case InBucket(b) =>
          ghost var was := buckets;
          OverflowPart(Stored(buckets), overflow);
          CountsStored(Stored(buckets), before);
          EraseFromBucket(b, home);
          SameFlags(Sp(), was, buckets, overflow);
          LinkedAgain();
          Shrunk(Stored(buckets), Stored(was), multiset(overflow), e);
        case InOverflow(j) =>
          InContents(p);
          EraseFromOverflow(j, home);
      }
      UniqueDelete(before, Contents(), e);
      OneLess(before, Contents(), e);
      SameValid(Contents());
    }

    lemma EntryAtIs(p: Position)
      requires match p case InBucket(b) => b < |buckets|
               && buckets[b].value.Some? case InOverflow(j) => j < |overflow| case End => false
      ensures p.InBucket? ==> EntryAt(p) == buckets[p.b].value.value
      ensures p.InOverflow? ==> EntryAt(p) == overflow[p.j]
    {
    }

    lemma InContents(p: Position)
      requires p.InOverflow? && p.j < |overflow| && count == |Contents()|
      ensures count > 0
    {
      assert overflow[p.j] in multiset(overflow);
      assert overflow[p.j] in Contents();
    }

    // ----- insertion

    /** Adds the pair unless the key is there. Fails when the table would exceed its maximum size. */
    method TryEmplace(key: K, value: V) returns (p: Option<Position>, inserted: bool)
      requires Valid()
      modifies this
      ensures p.Some? ==> Valid() && Holds(p.value, key) && !p.value.End? && (inserted <==> key !in old(MapOf(Contents())))
      ensures p.Some? ==> MapOf(Contents()) == if inserted then old(MapOf(Contents()))[key := value]
              else old(MapOf(Contents()))
      ensures p.Some? ==> n == old(n) || (inserted && GrownTo(policy, maxLoadFactor, old(n), n, old(count) + 1))
      ensures p.Some? && inserted && p.value.InOverflow? ==> Spilled(Home(Sp(), key))
      ensures p.None? ==> key !in old(MapOf(Contents()))
      ensures p.None? ==> GrowthRefused(policy, maxBuckets, maxLoadFactor, old(n), old(count) + 1)
      ensures p.None? && !moves ==> Valid() && MapOf(Contents()) == old(MapOf(Contents()))
    {
      hide *;
      ValidFacts();
      HomeIs(key);
      var found := FindImpl(key, hash(key), BucketForHash(hash(key)));
      HoldsValue(found, key);
      if !found.End? {
        return Some(found), false;
      }
      OwnHash(key);
      UniqueInsert(Contents(), Entry(key, value));
      inserted := true;
      p := InsertValue(BucketForHash(hash(key)), hash(key), Entry(key, value));
    }

    /** Adds the pair or overwrites the value. */
    method InsertOrAssign(key: K, value: V) returns (p: Option<Position>, inserted: bool)
      requires Valid()
      modifies this
      ensures p.Some? ==> Valid() && (inserted <==> key !in old(MapOf(Contents())))
      ensures p.Some? ==> MapOf(Contents()) == old(MapOf(Contents()))[key := value]
      ensures p.Some? ==> n == old(n) || (inserted && GrownTo(policy, maxLoadFactor, old(n), n, old(count) + 1))
      ensures p.None? ==> key !in old(MapOf(Contents()))
      ensures p.None? ==> GrowthRefused(policy, maxBuckets, maxLoadFactor, old(n), old(count) + 1)
      ensures p.None? && !moves ==> Valid() && MapOf(Contents()) == old(MapOf(Contents()))
      ensures p.Some? ==> Holds(p.value, key) && !p.value.End?
    {
      hide *;
      p, inserted := TryEmplace(key, value);
      if p.None? || inserted { return; }
      Assign(p.value, key, value);
    }

    method Assign(p: Position, key: K, value: V)
      requires Valid() && Holds(p, key) && !p.End?
      modifies `buckets, `overflow
      ensures Valid() && MapOf(Contents()) == old(MapOf(Contents()))[key := value]
      ensures Holds(p, key)
    {
      hide *;
      ValidFacts();
      HoldsFacts(p, key);
      HoldsValue(p, key);
      ghost var before, new_ := Contents(), Entry(key, value);
      match p {
        case InBucket(b) =>
          ghost var e, was := buckets[b].value.value, buckets;
          buckets := buckets[b := buckets[b].(value := Some(Entry(key, value)))];
          SameBits(Sp(), was, buckets);
          SameFlags(Sp(), was, buckets, overflow);
          AssignedInBucket(was, b, new_, overflow);
          LinkedAgain();
          FoundInBucket(key, b);
          Exchanged(before, Contents(), e, new_);
        case InOverflow(j) =>
          ghost var e, was := overflow[j], overflow;
          overflow := overflow[j := Entry(key, value)];
          AssignedInOverflow(Sp(), buckets, was, j, new_);
          LinkedAgain();
          FoundInOverflow(key, j);
          Exchanged(before, Contents(), e, new_);
      }
      SameValid(Contents());
    }

    // ----- load, size, starting over

    method Reserve(wanted: nat) returns (ok: bool)
      requires Valid()
      modifies this
      ensures ok ==> Valid() && Contents() == old(Contents()) && wanted <= maxLoad
      ensures ok ==> GrownTo(policy, maxLoadFactor, policy.round(old(Demand(Enough(wanted, maxLoadFactor)))), n, old(count))
      ensures !ok ==> policy.round(old(Demand(Enough(wanted, maxLoadFactor)))) > maxBuckets
                      || GrowthRefused(policy, maxBuckets, maxLoadFactor,
                                       policy.round(old(Demand(Enough(wanted, maxLoadFactor)))), old(count))
      ensures !ok && !moves ==> Valid() && Contents() == old(Contents())
    {
      hide *;
      ValidFacts();
      var m := Ceiling(wanted as real / maxLoadFactor);
      CeilingFacts(wanted, maxLoadFactor);
      EnoughIs(wanted, maxLoadFactor);
      ok := Rehash(m);
      if ok {
        ValidFacts();
        ReserveSuffices(wanted, m);
      }
    }

    lemma ReserveSuffices(wanted: nat, m: nat)
      requires Limits() && n >= m && m as real * maxLoadFactor >= wanted as real
      ensures wanted <= maxLoad
    {
      ProductNonNegative((n - m) as real, maxLoadFactor);
      assert n as real * maxLoadFactor >= wanted as real;
    }

    method SetMaxLoadFactor(f: real)
      requires Valid()
      modifies `maxLoadFactor, `minLoad, `maxLoad
      ensures Valid() && maxLoadFactor == Clamped(f)
      ensures (0.1 <= f <= 0.96 ==> maxLoadFactor == f) && (f < 0.1 ==> maxLoadFactor == 0.1)
              && (f > 0.96 ==> maxLoadFactor == 0.96)
      ensures maxLoad as real <= n as real * maxLoadFactor < maxLoad as real + 1.0
      ensures minLoad as real <= n as real * 0.1 < minLoad as real + 1.0
    {
      LoadIsShare(n, Clamped(f));
      LoadIsShare(n, MIN_LOAD_FACTOR_FOR_REHASH);
      hide Neighborly, Flagged, Unique, Stored, GoodPolicy, LoadOf;
      maxLoadFactor := Clamped(f);
      minLoad := LoadOf(n, MIN_LOAD_FACTOR_FOR_REHASH);
      maxLoad := LoadOf(n, maxLoadFactor);
    }

    method Clear()
      requires Valid()
      modifies `buckets, `overflow, `count
      ensures Valid() && Contents() == multiset{}
    {
      hide *;
      ValidFacts();
      ghost var size := |buckets|;
      var b := 0;
      while b < |buckets|
        invariant b <= |buckets| == size
        invariant forall x | 0 <= x < b :: buckets[x].value.None? && buckets[x].near == {} && !buckets[x].overflow
      {
        buckets := buckets[b := Bucket(None, buckets[b].hash, false, {})];
        b := b + 1;
      }
      overflow, count := [], 0;
      SpaceIs();
      EmptyIsNeighborly(Sp(), buckets);
      NoneStored(buckets);
      LinkedAgain();
      EmptyIsUnique<K, V>();
      SameValid(multiset{});
    }

    constructor (hash: K -> Word64, policy: Policy, reach: nat, storeHash: bool, moves: bool, maxBuckets: nat,
        n: nat, f: real)
      requires GoodPolicy(policy) && 4 <= reach <= 62 && n <= maxBuckets
      requires storeHash ==> forall m: nat | policy.stored(m) :: policy.stored(maxBuckets)
      ensures this.hash == hash && this.policy == policy && this.reach == reach && this.storeHash == storeHash
      ensures this.moves == moves && this.maxBuckets == maxBuckets && this.n == n
      ensures Valid() && Contents() == multiset{} && maxLoadFactor == Clamped(f)
    {
      this.hash, this.policy, this.reach, this.storeHash, this.moves := hash, policy, reach, storeHash, moves;
      this.maxBuckets, this.n := maxBuckets, n;
      buckets := if n > 0 then seq(n + reach - 1, i => Bucket(None, 0, false, {})) else [];
      overflow, count := [], 0;
      maxLoadFactor := Clamped(f);
      minLoad, maxLoad := LoadOf(n, MIN_LOAD_FACTOR_FOR_REHASH), LoadOf(n, Clamped(f));
      new;
      hide Valid, Contents, GoodPolicy, LoadOf;
      MadeValid();
    }

    lemma MadeValid()
      requires Fixed() && Limits() && |buckets| == (if n == 0 then 0 else n + reach - 1) && overflow == [] && count == 0
      requires forall b | 0 <= b < |buckets| :: buckets[b].value.None? && buckets[b].near == {} && !buckets[b].overflow
      ensures Valid() && Contents() == multiset{}
    {
      hide Neighborly, Flagged, Stored, GoodPolicy, Unique, LoadOf;
      EmptyIsNeighborly(Sp(), buckets);
      NoneStored(buckets);
      LinkedAgain();
      EmptyIsUnique<K, V>();
      SameValid(multiset{});
    }

  }

  /** No value whose home lies within reach before `e`, but before `to`, can move to bucket `e`. */
  ghost predicate NoneMovable<K, V>(buckets: seq<Bucket<K, V>>, reach: nat, e: nat, to: nat) {
    forall c: nat, i: nat | c < |buckets| && e < c + reach && c < to && i in buckets[c].near :: c + i >= e
  }

  /** The value in bucket `b`, of home `c`, is the first that can move to bucket `e`. */
  ghost predicate FirstMovable<K, V>(buckets: seq<Bucket<K, V>>, reach: nat, e: nat, c: nat, b: nat) {
    && c <= b < e < c + reach && c < |buckets| && b - c in buckets[c].near
    && NoneMovable(buckets, reach, e, c) && forall i: nat | i < b - c :: i !in buckets[c].near
  }

  lemma NoneMovableYet<K, V>(buckets: seq<Bucket<K, V>>, reach: nat, e: nat)
    requires reach <= e
    ensures NoneMovable(buckets, reach, e, e - reach + 1)
  {
  }

  lemma NoneMovableNext<K, V>(buckets: seq<Bucket<K, V>>, reach: nat, e: nat, c: nat)
    requires NoneMovable(buckets, reach, e, c) && c < |buckets| && forall i: nat | i in buckets[c].near :: c + i >= e
    ensures NoneMovable(buckets, reach, e, c + 1)
  {
  }

  lemma MovedValues<K, V>(buckets: seq<Bucket<K, V>>, c: nat, b: nat, e: nat)
    requires c <= b < e < |buckets|
    ensures var r := Toggle(Toggle(SwapValue(buckets, b, e), c, e - c), c, b - c);
            forall x: nat | x < |buckets| && x != b :: r[x].value == buckets[if x == e then b else x].value
  {
  }

  lemma IsFirstMovable<K, V>(buckets: seq<Bucket<K, V>>, reach: nat, e: nat, c: nat, b: nat)
    requires c <= b < e < c + reach && c < |buckets| && b - c in buckets[c].near
    requires NoneMovable(buckets, reach, e, c) && forall i: nat | i < b - c :: i !in buckets[c].near
    ensures FirstMovable(buckets, reach, e, c, b)
  {
  }

  lemma NoneLeftOf(infos: set<nat>, near: set<nat>, i: nat, c: nat, e: nat)
    requires Remaining(infos, near, i) && (infos == {} || c + i >= e)
    requires forall x: nat | x < i :: x !in near
    ensures forall x: nat | x in near :: c + x >= e
  {
    if infos == {} {
      RemainingNone(infos, near, i);
    }
  }

  lemma SameStored<K, V>(buckets: seq<Bucket<K, V>>, buckets': seq<Bucket<K, V>>)
    requires |buckets'| == |buckets| && forall b | 0 <= b < |buckets| :: buckets'[b].value == buckets[b].value
    ensures Stored(buckets') == Stored(buckets)
  {
    assert Values(buckets') == Values(buckets);
  }

  lemma EmptyIsNeighborly<K, V>(sp: Space<K>, buckets: seq<Bucket<K, V>>)
    requires 4 <= sp.reach <= 62 && |buckets| == (if sp.n == 0 then 0 else sp.n + sp.reach - 1)
    requires forall b | 0 <= b < |buckets| :: buckets[b].value.None? && buckets[b].near == {} && !buckets[b].overflow
    ensures Neighborly(sp, buckets) && Flagged(sp, buckets, [])
  {
  }

  lemma OverflowPart<T>(stored: multiset<T>, overflow: seq<T>)
    ensures multiset(overflow) <= stored + multiset(overflow) && stored <= stored + multiset(overflow)
  {
  }

  lemma IsStored<K, V>(buckets: seq<Bucket<K, V>>, b: nat, there: multiset<Entry<K, V>>)
    requires b < |buckets| && buckets[b].value.Some?
    ensures there + multiset{buckets[b].value.value} <= there + Stored(buckets)
  {
    GatherAt(Values(buckets), b);
  }

  lemma Handed<T>(there: multiset<T>, here: multiset<T>, here': multiset<T>, e: T)
    requires here' + multiset{e} == here
    ensures (there + multiset{e}) + here' == there + here
  {
  }

  lemma NoneStored<K, V>(buckets: seq<Bucket<K, V>>)
    requires forall b | 0 <= b < |buckets| :: buckets[b].value.None?
    ensures Stored(buckets) == multiset{}
  {
    GatherNone(Values(buckets));
  }

  lemma FlagKeeps<K, V>(sp: Space<K>, buckets: seq<Bucket<K, V>>, h: nat, flag: bool)
    requires Neighborly(sp, buckets) && h < |buckets|
    ensures Neighborly(sp, SetOverflow(buckets, h, flag)) && Stored(SetOverflow(buckets, h, flag)) == Stored(buckets)
  {
    SameBits(sp, buckets, SetOverflow(buckets, h, flag));
    SameStored(buckets, SetOverflow(buckets, h, flag));
  }

  lemma TakenOut<T>(c: multiset<T>, s: seq<T>, j: nat)
    requires j < |s|
    ensures (c + multiset(s[..j] + s[j + 1..])) + multiset{s[j]} == c + multiset(s)
  {
    assert s == s[..j] + [s[j]] + s[j + 1..];
  }

  lemma IsSomeHome<K, V>(sp: Space<K>, overflow: seq<Entry<K, V>>, j: nat)
    requires j < |overflow|
    ensures SomeHome(sp, overflow, Home(sp, overflow[j].key))
  {
  }

  lemma NoSomeHome<K, V>(sp: Space<K>, overflow: seq<Entry<K, V>>, h: nat)
    requires forall j | 0 <= j < |overflow| :: Home(sp, overflow[j].key) != h
    ensures !SomeHome(sp, overflow, h)
  {
  }

  lemma Shrunk<T>(a: multiset<T>, b: multiset<T>, c: multiset<T>, e: T)
    requires a + multiset{e} == b
    ensures (a + c) + multiset{e} == b + c
  {
  }

  lemma AssignedInBucket<K, V>(buckets: seq<Bucket<K, V>>, b: nat, e: Entry<K, V>, overflow: seq<Entry<K, V>>)
    requires b < |buckets| && buckets[b].value.Some?
    ensures var r := buckets[b := buckets[b].(value := Some(e))];
            (Stored(r) + multiset(overflow)) + multiset{buckets[b].value.value}
                == (Stored(buckets) + multiset(overflow)) + multiset{e}
  {
    var r := buckets[b := buckets[b].(value := Some(e))];
    assert Values(r) == Values(buckets)[b := Some(e)];
    GatherUpdate(Values(buckets), b, Some(e));
    Reorder(Stored(r), multiset{buckets[b].value.value}, Stored(buckets), multiset{e}, multiset(overflow));
  }

  lemma AssignedInOverflow<K, V>(sp: Space<K>, buckets: seq<Bucket<K, V>>, overflow: seq<Entry<K, V>>, j: nat,
      e: Entry<K, V>)
    requires Flagged(sp, buckets, overflow) && j < |overflow| && e.key == overflow[j].key
    ensures Flagged(sp, buckets, overflow[j := e])
    ensures (Stored(buckets) + multiset(overflow[j := e])) + multiset{overflow[j]}
            == (Stored(buckets) + multiset(overflow)) + multiset{e}
  {
    var r := overflow[j := e];
    forall b: nat | b < |buckets|
      ensures SomeHome(sp, overflow, b) <==> SomeHome(sp, r, b)
    {
      if x :| 0 <= x < |overflow| && Home(sp, overflow[x].key) == b {
        assert Home(sp, r[x].key) == b;
      }
      if x :| 0 <= x < |r| && Home(sp, r[x].key) == b {
        assert Home(sp, overflow[x].key) == b;
      }
    }
    TakenOut(Stored(buckets), overflow, j);
    TakenOut(Stored(buckets), r, j);
    assert r[..j] + r[j + 1..] == overflow[..j] + overflow[j + 1..];
  }

  lemma CeilingFacts(wanted: nat, f: real)
    requires 0.1 <= f <= 0.96
    ensures Ceiling(wanted as real / f) >= 0 && Ceiling(wanted as real / f) as real * f >= wanted as real
  {
    var q := wanted as real / f;
    assert q * f == wanted as real;
    var c := Ceiling(q);
    ProductNonNegative(c as real - q, f);
  }

  lemma NeededIsPositive(count: nat, f: real)
    requires f > 0.0
    ensures count > 0 ==> Ceiling(count as real / f) > 0
  {
    var q := count as real / f;
    assert q * f == count as real;
  }

  lemma EnoughIs(total: nat, f: real)
    requires f > 0.0
    ensures Enough(total, f) == Ceiling(total as real / f)
  {
  }

  lemma PartSize<T>(whole: multiset<T>, part: multiset<T>, e: T)
    requires part + multiset{e} <= whole
    ensures |part| + 1 <= |whole|
  {
    assert whole == part + multiset{e} + (whole - (part + multiset{e}));
  }

  lemma ProductNonNegative(a: real, b: real)
    requires a >= 0.0 && b >= 0.0
    ensures a * b >= 0.0
  {
  }

  lemma NothingYet<T>(slots: seq<Option<T>>)
    ensures Gather(slots[..0]) == multiset{}
  {
  }

  lemma StoredIs<K, V>(buckets: seq<Bucket<K, V>>)
    ensures Stored(buckets) == Gather(Values(buckets))
  {
  }

  lemma NextGathered<K, V>(buckets: seq<Bucket<K, V>>, overflow: seq<Entry<K, V>>, b: nat)
    requires b < |buckets|
    ensures var values := Values(buckets);
            if buckets[b].value.Some? then
              && Gather(values[..b + 1]) == Gather(values[..b]) + multiset{buckets[b].value.value}
              && Gather(values[..b]) + multiset{buckets[b].value.value} <= Stored(buckets) + multiset(overflow)
            else Gather(values[..b + 1]) == Gather(values[..b])
  {
    var values := Values(buckets);
    GatherPrefix(values, b + 1);
    assert values[..b + 1][..b] == values[..b];
  }

  lemma NextOverflow<K, V>(c: multiset<Entry<K, V>>, overflow: seq<Entry<K, V>>, j: nat)
    requires j < |overflow|
    ensures c + multiset(overflow[..j + 1]) == c + multiset(overflow[..j]) + multiset{overflow[j]}
    ensures c + multiset(overflow[..j]) + multiset{overflow[j]} <= c + multiset(overflow)
  {
    assert overflow[..j + 1] == overflow[..j] + [overflow[j]];
    assert overflow == overflow[..j + 1] + overflow[j + 1..];
  }

  /** How far so many buckets are from the most there can be. */
  function Room(most: nat, m: nat): nat {
    if m <= most then most - m + 1 else 0
  }

  lemma RoomLess(most: nat, a: nat, b: nat)
    requires a >= b
    ensures Room(most, a) <= Room(most, b)
  {
  }

  lemma EmptyIsUnique<K, V>()
    ensures Unique<K, V>(multiset{})
  {
  }

  function Ceiling(x: real): int { -((-x).Floor) }

  lemma CeilingIs(x: real)
    ensures Ceiling(x) as real - 1.0 < x <= Ceiling(x) as real
  {
  }

  /** `max_load_factor` keeps between 0.1 and 0.96. */
  function Clamped(f: real): real {
    var below := if f < 0.96 then f else 0.96;
    if 0.1 < below then below else 0.1
  }

  lemma ClampedSame(f: real)
    requires 0.1 <= f <= 0.96
    ensures Clamped(f) == f
  {
  }

  /** A threshold is the load factor's share of the buckets, rounded down. */
  lemma LoadIsShare(n: nat, f: real)
    ensures LoadOf(n, f) as real <= n as real * f < LoadOf(n, f) as real + 1.0
  {
  }

  function LoadOf(n: nat, f: real): int {
    (n as real * f).Floor
  }

  ghost predicate NoBucketHas<K, V>(buckets: seq<Bucket<K, V>>, key: K) {
    forall b | 0 <= b < |buckets| && buckets[b].value.Some? :: buckets[b].value.value.key != key
  }

  lemma NeighborlyFacts<K, V>(sp: Space<K>, buckets: seq<Bucket<K, V>>)
    requires Neighborly(sp, buckets)
    ensures 4 <= sp.reach <= 62 && |buckets| == (if sp.n == 0 then 0 else sp.n + sp.reach - 1)
  {
  }

  lemma NearBelow<K, V>(sp: Space<K>, buckets: seq<Bucket<K, V>>, h: nat, near: set<nat>)
    requires Neighborly(sp, buckets) && (sp.n == 0 || h < sp.n)
    requires near == if sp.n == 0 then {} else if h < |buckets| then buckets[h].near else {}
    ensures forall i: nat | i in near :: i < sp.reach
  {
    forall i: nat | i in near
      ensures i < sp.reach
    {
      BitsAt(sp, buckets, h, i);
    }
  }

  /** A key that none of its home's marked buckets holds is in no bucket. */
  lemma NotInBuckets<K, V>(sp: Space<K>, buckets: seq<Bucket<K, V>>, key: K, home: nat, near: set<nat>)
    requires Neighborly(sp, buckets) && home == Home(sp, key)
    requires near == if sp.n == 0 then {} else if home < |buckets| then buckets[home].near else {}
    requires forall x: nat | x in near :: home + x < |buckets| && buckets[home + x].value.Some?
                                          && buckets[home + x].value.value.key != key
    ensures NoBucketHas(buckets, key)
  {
    forall b | 0 <= b < |buckets| && buckets[b].value.Some?
      ensures buckets[b].value.value.key != key
    {
      ValueAt(sp, buckets, b);
      var i := b - Home(sp, buckets[b].value.value.key);
      assert Home(sp, buckets[b].value.value.key) + i == b;
    }
  }

  lemma NotFlagged<K, V>(sp: Space<K>, buckets: seq<Bucket<K, V>>, overflow: seq<Entry<K, V>>, key: K)
    requires Flagged(sp, buckets, overflow) && (sp.n == 0 || (Home(sp, key) < |buckets| && !buckets[Home(sp, key)].overflow))
    ensures forall j | 0 <= j < |overflow| :: overflow[j].key != key
  {
    if sp.n > 0 {
      assert !SomeHome(sp, overflow, Home(sp, key));
    }
  }
}
