/** Storage and growth of SimdHash tables: the tag array, the first EMPTY slot of a probe, capacities and what they leave free. */
module SimdStorage {
  import opened Arithmetic
  import opened Bags
  import opened Entries
  import opened LaneMasks
  import opened SimdProbe
  import opened RoundingUp
  import opened SimdLayout
  import opened SimdSteps
  import opened SimdRuns
  import opened SimdRehash
  import opened SimdCapacity

  /** Stores EMPTY over the slots and FORBIDDEN over the sentinel, one vector at a time. */
  method InitTags(a: array<Byte>, size: nat)
    requires size % WINDOW == 0 && a.Length == size + WINDOW
    modifies a
    ensures forall i | 0 <= i < size :: a[i] == EMPTY
    ensures forall i | size <= i < a.Length :: a[i] == FORBIDDEN
  {
    var ptr := 0;
    while ptr < size
      invariant 0 <= ptr <= size && ptr % WINDOW == 0
      invariant forall i | 0 <= i < ptr :: a[i] == EMPTY
    {
      forall l | 0 <= l < WINDOW {
        a[ptr + l] := EMPTY;
      }
      ptr := ptr + WINDOW;
    }
    forall l | 0 <= l < WINDOW {
      a[size + l] := FORBIDDEN;
    }
  }

  /** Slot for an entry during a rehash: the lowest EMPTY one of the first window on the probe of `hash` that has one. */
  method FindEmpty<K, V>(cfg: Config<K>, tags: array<Byte>, capacity: nat, hash: Word64, ghost s: Layout<K, V>, ghost key: K)
      returns (slot: nat)
    requires Shape(cfg, s) && s.n == capacity && s.tags == tags[..] && hash == cfg.hash(key)
    requires exists k: nat :: EmptyAhead(cfg, s, key, k)
    ensures exists k: nat :: FirstEmptyAt(cfg, s, key, slot, k)
  {
    hide *;
    ShapeFacts(cfg, s);
    ghost var bound: nat :| EmptyAhead(cfg, s, key, bound);
    FirstProbe(cfg, capacity, key);
    var tupleIndex := AdjustTupleIndex(cfg.mode, capacity, hash);
    var jump := 0;
    ghost var k: nat := 0;
    while true
      invariant tupleIndex == Start(cfg, capacity, key, k) && jump == Jump(k)
      invariant k <= bound && forall j: nat | j < k :: !EmptyAhead(cfg, s, key, j)
      decreases bound - k
    {
      EmptyAheadMeans(cfg, s, key, k);
      var emptyMask := GetEmptyMask(tags[tupleIndex..tupleIndex + WINDOW]);
      if emptyMask != {} {
        slot := tupleIndex + TrailingZeroCount(emptyMask);
        ScanEmpty(cfg, s, key, slot, k);
        return;
      }
      NextProbe(cfg, capacity, key, k);
      jump := (jump + WINDOW) % 256;
      assert jump == Jump(k + 1);
      tupleIndex := AdjustTupleIndex(cfg.mode, capacity, tupleIndex + jump);
      k := k + 1;
    }
  }

  lemma ShapeFacts<K, V>(cfg: Config<K>, s: Layout<K, V>)
    requires Shape(cfg, s)
    ensures GoodCapacity(cfg.mode, s.n) && |s.tags| == s.n + WINDOW && |s.entries| >= s.n
  {
  }

  // ----- when probes end

  /** With at least sixteen EMPTY slots every lookup ends. */
  lemma LookupEndsWithEmptyWindow<K, V>(cfg: Config<K>, s: Layout<K, V>, key: K)
    requires Shape(cfg, s) && ProbeCapacity(s.n)
    requires |set i | 0 <= i < s.n && s.tags[i] == EMPTY| >= WINDOW
    ensures LookupEnds(cfg, s, key)
  {
    var empty := set i | 0 <= i < s.n && s.tags[i] == EMPTY;
    if forall i | WINDOW - 1 <= i < s.n :: s.tags[i] != EMPTY {
      var low := {0, 1, 2, 3, 4, 5, 6, 7, 8, 9, 10, 11, 12, 13, 14};
      assert empty <= low;
      SubsetSize(empty, low);
      assert false;
    }
    LookupEndsIff(cfg, s, key);
  }

  /** While the count is below the limit of a capacity that is not the largest, every insertion ends;
      without tombstones every lookup does too. */
  lemma LoadLeavesEnds<K, V>(cfg: Config<K>, s: Layout<K, V>, key: K, unique: bool, f: real)
    requires Shape(cfg, s) && ProbeCapacity(s.n) && s.n < MAX_SIZE && MIN_LOAD_FACTOR <= f <= MAX_LOAD_FACTOR
    requires |Contents(s)| < GrowthLimit(s.n, f)
    ensures exists k: nat :: k < 2 * (s.n / WINDOW) && ScanStops(cfg, s, key, unique, k)
    ensures NoTombstone(s) ==> LookupEnds(cfg, s, key)
  {
    LargeEnough(s.n);
    LimitLeavesRoom(s.n, f);
    var k := InsertEnds(cfg, s, key);
    assert ScanStops(cfg, s, key, unique, k);
    if NoTombstone(s) {
      LookupEndsWithoutTombstones(cfg, s, key);
    }
  }

  /** The count is below the limit that belongs to some load factor, and the capacity is not the largest. */
  ghost predicate Loaded<K, V>(s: Layout<K, V>)
    requires s.n <= |s.tags| && s.n <= |s.entries|
  {
    && ProbeCapacity(s.n) && s.n < MAX_SIZE
    && exists f: real :: MIN_LOAD_FACTOR <= f <= MAX_LOAD_FACTOR && |Contents(s)| < GrowthLimit(s.n, f)
  }

  /** In every run without removals, every lookup and every insertion ends in every state below the limit. */
  lemma RunWithoutRemovalsEnds<K, V>(cfg: Config<K>, states: seq<Layout<K, V>>, events: seq<Event<K, V>>, i: nat, key: K,
      unique: bool)
    requires Execution(cfg, states, events) && Inv(cfg, states[0]) && NoTombstone(states[0])
    requires forall i | 0 <= i < |events| :: events[i].Removed? ==> !events[i].answer
    requires i < |states|
    ensures Inv(cfg, states[i])
    ensures Loaded(states[i]) ==>
              LookupEnds(cfg, states[i], key) && exists k: nat :: ScanStops(cfg, states[i], key, unique, k)
  {
    hide Contents, GrowthLimit, ProbeCapacity, LookupEnds, ScanStops, Step;
    RunWithoutRemovals(cfg, states, events);
    var s := states[i];
    if Loaded(s) {
      var f: real :| MIN_LOAD_FACTOR <= f <= MAX_LOAD_FACTOR && |Contents(s)| < GrowthLimit(s.n, f);
      LoadLeavesEnds(cfg, s, key, unique, f);
    }
  }

  lemma LargeEnough(n: nat)
    requires ProbeCapacity(n)
    ensures n >= MIN_SIZE
  {
    var p: nat :| p >= 12 && n == Pow2(p);
    PowerTable();
    Pow2Monotone(12, p);
  }

  // ----- growth

  /** Longer entry storage with the same leading entries holds the same table. */
  lemma MoreEntries<K, V>(cfg: Config<K>, s: Layout<K, V>, s': Layout<K, V>)
    requires Inv(cfg, s) && s'.n == s.n && s'.tags == s.tags && s.entries <= s'.entries
    ensures Inv(cfg, s') && Contents(s') == Contents(s)
  {
    forall i: nat | i < s.n && Occupied(s'.tags[i])
      ensures Placed(cfg, s', i)
    {
      PlacedKept(cfg, s, s', i);
    }
    OccupantsCongruent(s.tags, s.entries, s'.tags, s'.entries, s.n);
  }

  /** In the modes with power-of-two capacities every adjusted capacity can be probed completely. */
  lemma AdjustedCapacityIsGood(mode: Mode, size: nat)
    requires mode == Fast || mode == FastDivMod
    ensures var n := AdjustedCapacity(mode, size); ProbeCapacity(n) && GoodCapacity(mode, n)
  {
    PowerTable();
    var n := AdjustedCapacity(mode, size);
    if MIN_SIZE < size < MAX_SIZE {
      RoundUpIsLeast(size);
      var p: nat :| n == Pow2(p);
      if p < 12 {
        Pow2Monotone(p, 12);
      }
      if p > 31 {
        Pow2Monotone(32, p);
      }
      Pow2Monotone(p, 31);
    }
    var p: nat :| p >= 12 && n == Pow2(p);
    SplitCapacity(p);
  }

  lemma LargerCapacityDoubles(a: nat, b: nat)
    requires ProbeCapacity(a) && ProbeCapacity(b) && a < b
    ensures 2 * a <= b && a >= MIN_SIZE
  {
    var p: nat :| p >= 12 && a == Pow2(p);
    var q: nat :| q >= 12 && b == Pow2(q);
    PowerTable();
    Pow2Monotone(12, p);
    if q <= p {
      Pow2Monotone(q, p);
    }
    Pow2Monotone(p + 1, q);
  }

  /** What a resize to one more slot comes to: twice the capacity and a limit not yet reached. */
  lemma GrowthCapacity(mode: Mode, capacity: nat, f: real)
    requires (mode == Fast || mode == FastDivMod) && ProbeCapacity(capacity) && capacity <= MAX_SIZE
    requires MIN_LOAD_FACTOR <= f <= MAX_LOAD_FACTOR
    ensures AdjustedCapacity(mode, capacity + 1) == if capacity < MAX_SIZE then 2 * capacity else MAX_SIZE
    ensures capacity < MAX_SIZE ==> GrowthLimit(capacity, f) < GrowthLimit(2 * capacity, f)
  {
    var p: nat :| p >= 12 && capacity == Pow2(p);
    PowerTable();
    Pow2Monotone(12, p);
    if capacity < MAX_SIZE {
      DoubledCapacity(mode, p);
      LimitGrows(capacity, f);
    }
  }

  lemma FoundEntry<K, V>(cfg: Config<K>, s: Layout<K, V>, key: K, i: nat)
    requires Shape(cfg, s) && exists k: nat :: LookupOutcome(cfg, s, key, true, i, k)
    ensures i < s.n && s.entries[i].key == key && Entry(key, s.entries[i].value) in Contents(s)
  {
    var k: nat :| LookupOutcome(cfg, s, key, true, i, k);
    assert FirstHitAt(cfg, s, key, i, k);
    OccupantAt(s.tags, s.entries, s.n, i);
  }

  lemma PresentInMaps<K, V>(s: Layout<K, V>, key: K, value: V)
    requires s.n <= |s.tags| && s.n <= |s.entries| && Entry(key, value) in Contents(s)
    ensures forall m: map<K, V> | MapLike(Contents(s), m) :: key in m && m[key] == value
  {
  }

  lemma AbsentFromMaps<K, V>(s: Layout<K, V>, key: K)
    requires s.n <= |s.tags| && s.n <= |s.entries| && !HasKey(Contents(s), key)
    ensures forall m: map<K, V> | MapLike(Contents(s), m) :: key !in m
  {
    forall m: map<K, V> | MapLike(Contents(s), m)
      ensures key !in m
    {
      MapLikeKeys(Contents(s), m, key);
    }
  }

  lemma CountBound<K, V>(cfg: Config<K>, s: Layout<K, V>)
    requires Inv(cfg, s)
    ensures |Contents(s)| <= s.n && (|Contents(s)| == 0 ==> Contents(s) == multiset{})
  {
    OccupantsBound(s.tags, s.entries, s.n);
  }

  lemma {:induction false} OccupantsBound<K, V>(tags: seq<Byte>, entries: seq<Entry<K, V>>, m: nat)
    requires m <= |tags| && m <= |entries|
    ensures |Occupants(tags, entries, m)| <= m
  {
    if m > 0 {
      OccupantsBound(tags, entries, m - 1);
    }
  }
}
