/** Lookup, insertion and removal on a SimdHash layout: what each finds, changes and keeps. */
module SimdSteps {
  import opened Arithmetic
  import opened Bags
  import opened Entries
  import opened LaneMasks
  import opened SimdProbe
  import opened SimdLayout

  /** Slot `i` holds `key` under `key`'s tag. */
  ghost predicate Hit<K, V>(cfg: Config<K>, s: Layout<K, V>, key: K, i: nat)
    requires Shape(cfg, s)
  {
    i < s.n && s.tags[i] == HashToTag(cfg.hash(key)) && s.entries[i].key == key
  }

  ghost predicate HasHit<K, V>(cfg: Config<K>, s: Layout<K, V>, key: K, p: nat)
    requires Shape(cfg, s) && p < s.n
  {
    exists i: nat :: p <= i < p + WINDOW && Hit(cfg, s, key, i)
  }

  lemma FirstProbe<K>(cfg: Config<K>, n: nat, key: K)
    requires GoodCapacity(cfg.mode, n)
    ensures Jump(0) == 0
    ensures AdjustTupleIndex(cfg.mode, n, cfg.hash(key)) == Start(cfg, n, key, 0)
  {
  }

  lemma NextProbe<K>(cfg: Config<K>, n: nat, key: K, k: nat)
    requires GoodCapacity(cfg.mode, n)
    ensures Jump(k + 1) == (Jump(k) + WINDOW) % 256
    ensures AdjustTupleIndex(cfg.mode, n, Start(cfg, n, key, k) + Jump(k + 1)) == Start(cfg, n, key, k + 1)
  {
    JumpStep(k);
    var x := Start(cfg, n, key, k) + Jump(k + 1);
    AdjustIsReduction(cfg.mode, n, x);
    assert Start(cfg, n, key, k + 1) == Wrap(x, n);
  }

  lemma EmptyMaskMeans(tags: seq<Byte>, p: nat)
    requires p + WINDOW <= |tags|
    ensures GetEmptyMask(tags[p..p + WINDOW]) != {} <==> HasEmpty(tags, p)
  {
    var w := tags[p..p + WINDOW];
    if i :| p <= i < p + WINDOW && tags[i] == EMPTY {
      assert w[i - p] == EMPTY;
      assert i - p in GetEmptyMask(w);
    }
  }

  ghost predicate EmptyAhead<K, V>(cfg: Config<K>, s: Layout<K, V>, key: K, k: nat)
    requires Shape(cfg, s)
  {
    HasEmpty(s.tags, Start(cfg, s.n, key, k))
  }

  lemma EmptyAheadMeans<K, V>(cfg: Config<K>, s: Layout<K, V>, key: K, k: nat)
    requires Shape(cfg, s)
    ensures var p := Start(cfg, s.n, key, k);
            p + WINDOW <= |s.tags| && (EmptyAhead(cfg, s, key, k) <==> GetEmptyMask(s.tags[p..p + WINDOW]) != {})
  {
    EmptyMaskMeans(s.tags, Start(cfg, s.n, key, k));
  }

  lemma FreeMaskMeans(tags: seq<Byte>, p: nat)
    requires p + WINDOW <= |tags|
    ensures GetEmptyOrTombstoneMask(tags[p..p + WINDOW]) != {} <==> HasFree(tags, p)
  {
    var w := tags[p..p + WINDOW];
    if i :| p <= i < p + WINDOW && Free(tags[i]) {
      assert Free(w[i - p]);
      assert i - p in GetEmptyOrTombstoneMask(w);
    }
  }

  ghost predicate LowestHit<K, V>(cfg: Config<K>, s: Layout<K, V>, key: K, p: nat, i: nat)
    requires Shape(cfg, s)
  {
    && p <= i < p + WINDOW
    && Hit(cfg, s, key, i)
    && forall m: nat | p <= m < i :: !Hit(cfg, s, key, m)
  }

  /** Lookup ends at the first window with a hit or an EMPTY tag. */
  ghost predicate LookupStops<K, V>(cfg: Config<K>, s: Layout<K, V>, key: K, k: nat)
    requires Shape(cfg, s)
  {
    HasHit(cfg, s, key, Start(cfg, s.n, key, k)) || HasEmpty(s.tags, Start(cfg, s.n, key, k))
  }

  ghost predicate LookupEnds<K, V>(cfg: Config<K>, s: Layout<K, V>, key: K)
    requires Shape(cfg, s)
  {
    exists k: nat :: LookupStops(cfg, s, key, k)
  }

  /** `i` is the lowest hit of window `k`, and no earlier window stops the lookup. */
  ghost predicate FirstHitAt<K, V>(cfg: Config<K>, s: Layout<K, V>, key: K, i: nat, k: nat)
    requires Shape(cfg, s)
  {
    && LowestHit(cfg, s, key, Start(cfg, s.n, key, k), i)
    && (forall j: nat | j < k :: !LookupStops(cfg, s, key, j))
  }

  /** Window `k` holds an EMPTY tag and no window up to it holds a hit. */
  ghost predicate MissAt<K, V>(cfg: Config<K>, s: Layout<K, V>, key: K, k: nat)
    requires Shape(cfg, s)
  {
    && HasEmpty(s.tags, Start(cfg, s.n, key, k))
    && forall j: nat | j <= k :: !HasHit(cfg, s, key, Start(cfg, s.n, key, j))
  }

  /** What a lookup settles on: the key's first entry, or nothing. */
  ghost predicate LookupOutcome<K, V>(cfg: Config<K>, s: Layout<K, V>, key: K, found: bool, i: nat, k: nat)
    requires Shape(cfg, s)
  {
    if found then FirstHitAt(cfg, s, key, i, k) else MissAt(cfg, s, key, k)
  }

  ghost predicate Stored<K, V>(cfg: Config<K>, s: Layout<K, V>, key: K)
    requires Shape(cfg, s)
  {
    exists i: nat :: i < s.n && Occupied(s.tags[i]) && s.entries[i].key == key
  }

  /** A stored entry lies in a window of its probe that no EMPTY tag precedes. */
  lemma WindowOf<K, V>(cfg: Config<K>, s: Layout<K, V>, i: nat) returns (k: nat)
    requires Inv(cfg, s) && i < s.n && Occupied(s.tags[i])
    ensures var key := s.entries[i].key; HasHit(cfg, s, key, Start(cfg, s.n, key, k))
    ensures var key := s.entries[i].key; ReachedAt(cfg, s, key, i, k)
  {
    var key := s.entries[i].key;
    assert Placed(cfg, s, i);
    k :| ReachedAt(cfg, s, key, i, k);
    assert Hit(cfg, s, key, i);
  }

  /** A lookup that stops on EMPTY without a hit has proved the key absent. */
  lemma MissMeansAbsent<K, V>(cfg: Config<K>, s: Layout<K, V>, key: K, k: nat)
    requires Inv(cfg, s) && MissAt(cfg, s, key, k)
    ensures !Stored(cfg, s, key)
  {
    if i: nat :| i < s.n && Occupied(s.tags[i]) && s.entries[i].key == key {
      var j := WindowOf(cfg, s, i);
      assert false;
    }
  }

  lemma StoredIffHasKey<K, V>(cfg: Config<K>, s: Layout<K, V>, key: K)
    requires Shape(cfg, s)
    ensures Stored(cfg, s, key) <==> HasKey(Contents(s), key)
  {
    if Stored(cfg, s, key) {
      var i: nat :| i < s.n && Occupied(s.tags[i]) && s.entries[i].key == key;
      OccupantAt(s.tags, s.entries, s.n, i);
    }
    if HasKey(Contents(s), key) {
      var e :| e in Contents(s) && e.key == key;
      var i := SlotOf(s.tags, s.entries, s.n, e);
    }
  }

  /** The first window of a scan with an EMPTY tag, when no window up to it has a hit, ends in a miss. */
  lemma ScanMisses<K, V>(cfg: Config<K>, s: Layout<K, V>, key: K, i: nat, k: nat)
    requires Inv(cfg, s)
    requires forall j: nat | j < k :: !LookupStops(cfg, s, key, j)
    requires !HasHit(cfg, s, key, Start(cfg, s.n, key, k)) && EmptyAhead(cfg, s, key, k)
    ensures LookupOutcome(cfg, s, key, false, i, k) && !HasKey(Contents(s), key)
  {
    forall j: nat | j <= k
      ensures !HasHit(cfg, s, key, Start(cfg, s.n, key, j))
    {
      if j < k {
        assert !LookupStops(cfg, s, key, j);
      }
    }
    MissMeansAbsent(cfg, s, key, k);
    StoredIffHasKey(cfg, s, key);
  }

  lemma ScanFinds<K, V>(cfg: Config<K>, s: Layout<K, V>, key: K, i: nat, k: nat)
    requires Shape(cfg, s) && forall j: nat | j < k :: !LookupStops(cfg, s, key, j)
    requires LowestHit(cfg, s, key, Start(cfg, s.n, key, k), i)
    ensures LookupOutcome(cfg, s, key, true, i, k) && HasKey(Contents(s), key)
  {
    assert Stored(cfg, s, key);
    StoredIffHasKey(cfg, s, key);
  }

  lemma InvHasShape<K, V>(cfg: Config<K>, s: Layout<K, V>)
    requires Inv(cfg, s)
    ensures Shape(cfg, s)
  {
  }

  lemma LookupEndsAt<K, V>(cfg: Config<K>, s: Layout<K, V>, key: K)
    requires Shape(cfg, s) && LookupEnds(cfg, s, key)
    ensures exists k: nat :: LookupStops(cfg, s, key, k)
  {
  }

  lemma LookupGoesOn<K, V>(cfg: Config<K>, s: Layout<K, V>, key: K, k: nat)
    requires Shape(cfg, s) && !HasHit(cfg, s, key, Start(cfg, s.n, key, k)) && !EmptyAhead(cfg, s, key, k)
    ensures !LookupStops(cfg, s, key, k)
  {
  }

  // ----- the tag matches of one window, lowest first

  /** The lanes of `mask` carry the key's tag, and every hit of the window that starts at `p` is among them. */
  ghost predicate Unsearched<K, V>(cfg: Config<K>, s: Layout<K, V>, key: K, p: nat, mask: set<nat>)
    requires Shape(cfg, s)
  {
    && (forall l | l in mask :: p + l < s.n && s.tags[p + l] == HashToTag(cfg.hash(key)))
    && (forall m: nat | p <= m < p + WINDOW && Hit(cfg, s, key, m) :: m - p in mask)
    && (forall l | l in mask :: l < WINDOW)
  }

  lemma SearchStarts<K, V>(cfg: Config<K>, s: Layout<K, V>, key: K, p: nat)
    requires Shape(cfg, s) && p < s.n
    ensures p + WINDOW <= |s.tags|
    ensures Unsearched(cfg, s, key, p, GetCmpMask(s.tags[p..p + WINDOW], HashToTag(cfg.hash(key))))
  {
    var w := s.tags[p..p + WINDOW];
    var mask := GetCmpMask(w, HashToTag(cfg.hash(key)));
    forall l | l in mask
      ensures p + l < s.n && s.tags[p + l] == HashToTag(cfg.hash(key))
    {
      assert w[l] == s.tags[p + l];
    }
    forall m: nat | p <= m < p + WINDOW && Hit(cfg, s, key, m)
      ensures m - p in mask
    {
      assert w[m - p] == s.tags[m];
    }
  }

  lemma SearchLane<K, V>(cfg: Config<K>, s: Layout<K, V>, key: K, p: nat, mask: set<nat>)
    requires Shape(cfg, s) && Unsearched(cfg, s, key, p, mask) && mask != {}
    ensures var i := p + TrailingZeroCount(mask);
            && i < s.n && Occupied(s.tags[i])
            && if s.entries[i].key == key then LowestHit(cfg, s, key, p, i)
               else Unsearched(cfg, s, key, p, ResetLowestSetBit(mask))
  {
  }

  lemma SearchEnds<K, V>(cfg: Config<K>, s: Layout<K, V>, key: K, p: nat)
    requires Shape(cfg, s) && Unsearched(cfg, s, key, p, {}) && p < s.n
    ensures !HasHit(cfg, s, key, p)
  {
  }

  // ----- insertion

  ghost predicate InsertStops<K, V>(cfg: Config<K>, s: Layout<K, V>, key: K, k: nat)
    requires Shape(cfg, s)
  {
    HasFree(s.tags, Start(cfg, s.n, key, k))
  }

  /** `i` is the lowest EMPTY or TOMBSTONE slot of window `k`, and no earlier window has one. */
  ghost predicate FirstFreeAt<K, V>(cfg: Config<K>, s: Layout<K, V>, key: K, i: nat, k: nat)
    requires Shape(cfg, s)
  {
    var p := Start(cfg, s.n, key, k);
    && p <= i < p + WINDOW && i < s.n && Free(s.tags[i])
    && (forall m | p <= m < i :: !Free(s.tags[m]))
    && (forall j: nat | j < k :: !HasFree(s.tags, Start(cfg, s.n, key, j)))
  }

  ghost function Insert<K, V>(cfg: Config<K>, s: Layout<K, V>, key: K, value: V, i: nat): Layout<K, V>
    requires Shape(cfg, s) && i < s.n
  {
    s.(tags := s.tags[i := HashToTag(cfg.hash(key))], entries := s.entries[i := Entry(key, value)])
  }

  ghost function Bury<K, V>(s: Layout<K, V>, i: nat): Layout<K, V>
    requires i < |s.tags|
  {
    s.(tags := s.tags[i := TOMBSTONE])
  }

  ghost function Assign<K, V>(s: Layout<K, V>, i: nat, value: V): Layout<K, V>
    requires i < |s.entries|
  {
    s.(entries := s.entries[i := s.entries[i].(value := value)])
  }

  /** What is reachable stays reachable while no slot turns EMPTY. */
  lemma ReachedKept<K, V>(cfg: Config<K>, s: Layout<K, V>, s': Layout<K, V>, key: K, i: nat, k: nat)
    requires Shape(cfg, s) && Shape(cfg, s') && s.n == s'.n
    requires forall j | 0 <= j < |s.tags| :: s'.tags[j] == EMPTY ==> s.tags[j] == EMPTY
    requires ReachedAt(cfg, s, key, i, k)
    ensures ReachedAt(cfg, s', key, i, k)
  {
    forall j: nat | j < k
      ensures !HasEmpty(s'.tags, Start(cfg, s.n, key, j))
    {
      assert !HasEmpty(s.tags, Start(cfg, s.n, key, j));
    }
  }

  lemma PlacedKept<K, V>(cfg: Config<K>, s: Layout<K, V>, s': Layout<K, V>, i: nat)
    requires Shape(cfg, s) && Shape(cfg, s') && s.n == s'.n
    requires forall j | 0 <= j < |s.tags| :: s'.tags[j] == EMPTY ==> s.tags[j] == EMPTY
    requires i < s.n && s'.tags[i] == s.tags[i] && s'.entries[i].key == s.entries[i].key
    requires Placed(cfg, s, i)
    ensures Placed(cfg, s', i)
  {
    var key := s.entries[i].key;
    var k: nat :| ReachedAt(cfg, s, key, i, k);
    ReachedKept(cfg, s, s', key, i, k);
  }

  /** Filling the first free slot of a probe keeps the invariant and adds exactly the new entry. */
  lemma InsertKeeps<K, V>(cfg: Config<K>, s: Layout<K, V>, key: K, value: V, i: nat, k: nat)
    requires Inv(cfg, s) && FirstFreeAt(cfg, s, key, i, k)
    ensures var s' := Insert(cfg, s, key, value, i);
            Inv(cfg, s') && Contents(s') == Contents(s) + multiset{Entry(key, value)}
  {
    var s' := Insert(cfg, s, key, value, i);
    assert Shape(cfg, s');
    assert ReachedAt(cfg, s, key, i, k) by {
      forall j: nat | j < k
        ensures !HasEmpty(s.tags, Start(cfg, s.n, key, j))
      {
        assert !HasFree(s.tags, Start(cfg, s.n, key, j));
      }
    }
    ReachedKept(cfg, s, s', key, i, k);
    forall m: nat | m < s.n && Occupied(s'.tags[m])
      ensures Placed(cfg, s', m)
    {
      if m != i {
        PlacedKept(cfg, s, s', m);
      }
    }
    OccupantsUpdate(s.tags, s.entries, i, HashToTag(cfg.hash(key)), Entry(key, value), s.n);
  }

  /** Burying a slot keeps the invariant and takes out exactly that entry. */
  lemma BuryKeeps<K, V>(cfg: Config<K>, s: Layout<K, V>, i: nat)
    requires Inv(cfg, s) && i < s.n && Occupied(s.tags[i])
    ensures var s' := Bury(s, i);
            Inv(cfg, s') && Contents(s) == Contents(s') + multiset{s.entries[i]}
  {
    var s' := Bury(s, i);
    assert Shape(cfg, s');
    forall m: nat | m < s.n && Occupied(s'.tags[m])
      ensures Placed(cfg, s', m)
    {
      PlacedKept(cfg, s, s', m);
    }
    OccupantsUpdate(s.tags, s.entries, i, TOMBSTONE, s.entries[i], s.n);
    assert s.entries[i := s.entries[i]] == s.entries;
  }

  /** Assigning a value keeps the invariant and exchanges one entry for the same key's new one. */
  lemma AssignKeeps<K, V>(cfg: Config<K>, s: Layout<K, V>, i: nat, value: V)
    requires Inv(cfg, s) && i < s.n && Occupied(s.tags[i])
    ensures var s' := Assign(s, i, value);
            && Inv(cfg, s')
            && Contents(s') + multiset{s.entries[i]} == Contents(s) + multiset{Entry(s.entries[i].key, value)}
  {
    var s' := Assign(s, i, value);
    assert Shape(cfg, s');
    forall m: nat | m < s.n && Occupied(s'.tags[m])
      ensures Placed(cfg, s', m)
    {
      PlacedKept(cfg, s, s', m);
    }
    OccupantsUpdate(s.tags, s.entries, i, s.tags[i], Entry(s.entries[i].key, value), s.n);
    assert s.tags[i := s.tags[i]] == s.tags;
  }

  /** A layout whose slots are all EMPTY is well formed and stores nothing. */
  lemma FreshIsEmpty<K, V>(cfg: Config<K>, s: Layout<K, V>)
    requires Shape(cfg, s) && forall i | 0 <= i < s.n :: s.tags[i] == EMPTY
    ensures Inv(cfg, s) && NoTombstone(s) && Contents(s) == multiset{}
  {
    OccupantsEmpty(s.tags, s.entries, s.n);
  }

  // ----- termination

  ghost predicate ProbeCapacity(n: nat) {
    exists p: nat :: p >= 12 && n == Pow2(p)
  }

  /** Every probe has a window that contains any given slot at or above the probe's residue. */
  lemma CoveringWindow<K>(cfg: Config<K>, n: nat, key: K, i: nat) returns (k: nat)
    requires GoodCapacity(cfg.mode, n) && ProbeCapacity(n)
    requires Start(cfg, n, key, 0) % WINDOW <= i < n
    ensures k < 2 * (n / WINDOW)
    ensures Start(cfg, n, key, k) <= i < Start(cfg, n, key, k) + WINDOW
  {
    var p: nat :| p >= 12 && n == Pow2(p);
    var h := Home(cfg, n, key);
    assert Start(cfg, n, key, 0) == h;
    k := ProbeReaches(h, i, p);
    assert Start(cfg, n, key, k) == Pos(h, k, n);
  }

  /** For power-of-two capacities a lookup ends exactly when the key is found on its probe
      or some slot that is not below the probe's residue is EMPTY. */
  lemma LookupEndsIff<K, V>(cfg: Config<K>, s: Layout<K, V>, key: K)
    requires Shape(cfg, s) && ProbeCapacity(s.n)
    ensures LookupEnds(cfg, s, key) <==>
            exists i: nat :: Start(cfg, s.n, key, 0) % WINDOW <= i < s.n
                             && (s.tags[i] == EMPTY || Hit(cfg, s, key, i))
  {
    var r := Start(cfg, s.n, key, 0) % WINDOW;
    if i: nat :| r <= i < s.n && (s.tags[i] == EMPTY || Hit(cfg, s, key, i)) {
      var k := CoveringWindow(cfg, s.n, key, i);
      assert LookupStops(cfg, s, key, k);
    }
    if k: nat :| LookupStops(cfg, s, key, k) {
      var p := Start(cfg, s.n, key, k);
      PosRange(Start(cfg, s.n, key, 0), k, s.n);
      if HasHit(cfg, s, key, p) {
        var i: nat :| p <= i < p + WINDOW && Hit(cfg, s, key, i);
      } else {
        var i :| p <= i < p + WINDOW && s.tags[i] == EMPTY;
        assert i < s.n;
      }
    }
  }

  /** With at least sixteen slots free, every insertion finds a free slot within 2 * (n / 16) probes. */
  lemma InsertEnds<K, V>(cfg: Config<K>, s: Layout<K, V>, key: K) returns (k: nat)
    requires Shape(cfg, s) && ProbeCapacity(s.n)
    requires |Contents(s)| <= s.n - WINDOW
    ensures k < 2 * (s.n / WINDOW) && InsertStops(cfg, s, key, k)
  {
    if forall i | WINDOW - 1 <= i < s.n :: Occupied(s.tags[i]) {
      OccupiedRun(s.tags, s.entries, WINDOW - 1, s.n);
      assert false;
    }
    var i :| WINDOW - 1 <= i < s.n && !Occupied(s.tags[i]);
    k := CoveringWindow(cfg, s.n, key, i);
    assert Free(s.tags[i]);
  }

  /** Without tombstones the same bound makes every lookup end. */
  lemma LookupEndsWithoutTombstones<K, V>(cfg: Config<K>, s: Layout<K, V>, key: K)
    requires Shape(cfg, s) && ProbeCapacity(s.n) && NoTombstone(s)
    requires |Contents(s)| <= s.n - WINDOW
    ensures LookupEnds(cfg, s, key)
  {
    var k := InsertEnds(cfg, s, key);
    assert HasEmpty(s.tags, Start(cfg, s.n, key, k));
    assert LookupStops(cfg, s, key, k);
  }
}
