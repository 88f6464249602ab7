/** Whole runs of a SimdHash table: the multiset it always is, and the map it is while every stored key is met
    before a free slot when something is inserted. */
module SimdRuns {
  import opened Bags
  import opened Entries
  import opened LaneMasks
  import opened SimdProbe
  import opened SimdLayout
  import opened SimdSteps

  // ----- the steps of a table

  /** `i` is the lowest hit of window `k`, and every earlier window has neither a hit nor a free slot. */
  ghost predicate MatchAt<K, V>(cfg: Config<K>, s: Layout<K, V>, key: K, i: nat, k: nat)
    requires Shape(cfg, s)
  {
    && LowestHit(cfg, s, key, Start(cfg, s.n, key, k), i)
    && (forall j: nat | j < k :: !HasHit(cfg, s, key, Start(cfg, s.n, key, j)) && !HasFree(s.tags, Start(cfg, s.n, key, j)))
  }

  ghost predicate NoHitUpTo<K, V>(cfg: Config<K>, s: Layout<K, V>, key: K, k: nat)
    requires Shape(cfg, s)
  {
    forall j: nat | j <= k :: !HasHit(cfg, s, key, Start(cfg, s.n, key, j))
  }

  /** A checked insertion goes to the first free slot when no window up to it holds the key. */
  ghost predicate VacancyAt<K, V>(cfg: Config<K>, s: Layout<K, V>, key: K, i: nat, k: nat)
    requires Shape(cfg, s)
  {
    FirstFreeAt(cfg, s, key, i, k) && NoHitUpTo(cfg, s, key, k)
  }

  // ----- the scan of an insertion

  ghost predicate AddStops<K, V>(cfg: Config<K>, s: Layout<K, V>, key: K, k: nat)
    requires Shape(cfg, s)
  {
    HasHit(cfg, s, key, Start(cfg, s.n, key, k)) || HasFree(s.tags, Start(cfg, s.n, key, k))
  }

  /** Where an insertion stops scanning: a free slot, or a hit unless the key is promised to be new. */
  ghost predicate ScanStops<K, V>(cfg: Config<K>, s: Layout<K, V>, key: K, unique: bool, k: nat)
    requires Shape(cfg, s)
  {
    if unique then InsertStops(cfg, s, key, k) else AddStops(cfg, s, key, k)
  }

  /** What the scan settles on: the key's entry or the slot to fill. */
  ghost predicate ScanTarget<K, V>(cfg: Config<K>, s: Layout<K, V>, key: K, unique: bool, hit: bool, i: nat, k: nat)
    requires Shape(cfg, s)
  {
    if hit then !unique && MatchAt(cfg, s, key, i, k)
    else FirstFreeAt(cfg, s, key, i, k) && (unique || NoHitUpTo(cfg, s, key, k))
  }

  lemma ScanMatches<K, V>(cfg: Config<K>, s: Layout<K, V>, key: K, i: nat, k: nat)
    requires Shape(cfg, s) && forall j: nat | j < k :: !ScanStops(cfg, s, key, false, j)
    requires LowestHit(cfg, s, key, Start(cfg, s.n, key, k), i)
    ensures ScanTarget(cfg, s, key, false, true, i, k)
  {
    forall j: nat | j < k
      ensures !HasHit(cfg, s, key, Start(cfg, s.n, key, j)) && !HasFree(s.tags, Start(cfg, s.n, key, j))
    {
      assert !ScanStops(cfg, s, key, false, j);
    }
  }

  /** The mask of free lanes of a window without a hit tells whether the scan stops there. */
  lemma ScanFreeMeans<K, V>(cfg: Config<K>, s: Layout<K, V>, key: K, unique: bool, k: nat)
    requires Shape(cfg, s) && (unique || !HasHit(cfg, s, key, Start(cfg, s.n, key, k)))
    ensures var p := Start(cfg, s.n, key, k);
            p + WINDOW <= |s.tags|
            && (ScanStops(cfg, s, key, unique, k) <==> GetEmptyOrTombstoneMask(s.tags[p..p + WINDOW]) != {})
  {
    FreeMaskMeans(s.tags, Start(cfg, s.n, key, k));
  }

  lemma ScanFree<K, V>(cfg: Config<K>, s: Layout<K, V>, key: K, unique: bool, i: nat, k: nat)
    requires Shape(cfg, s) && forall j: nat | j < k :: !ScanStops(cfg, s, key, unique, j)
    requires unique || !HasHit(cfg, s, key, Start(cfg, s.n, key, k))
    requires var p := Start(cfg, s.n, key, k); var mask := GetEmptyOrTombstoneMask(s.tags[p..p + WINDOW]);
             mask != {} && i == p + TrailingZeroCount(mask)
    ensures ScanTarget(cfg, s, key, unique, false, i, k)
  {
    LowestLane(s.tags, Start(cfg, s.n, key, k), i);
    forall j: nat | j < k
      ensures !HasFree(s.tags, Start(cfg, s.n, key, j))
      ensures !unique ==> !HasHit(cfg, s, key, Start(cfg, s.n, key, j))
    {
      assert !ScanStops(cfg, s, key, unique, j);
    }
  }

  lemma LowestLane(tags: seq<Byte>, p: nat, i: nat)
    requires p + WINDOW <= |tags|
    requires var mask := GetEmptyOrTombstoneMask(tags[p..p + WINDOW]); mask != {} && i == p + TrailingZeroCount(mask)
    ensures p <= i < p + WINDOW && Free(tags[i]) && forall m | p <= m < i :: !Free(tags[m])
  {
    var w := tags[p..p + WINDOW];
    var l := TrailingZeroCount(GetEmptyOrTombstoneMask(w));
    assert Free(w[l]) && w[l] == tags[i];
    forall m | p <= m < i
      ensures !Free(tags[m])
    {
      assert w[m - p] == tags[m];
      assert m - p !in GetEmptyOrTombstoneMask(w);
    }
  }

  ghost predicate AddStep<K, V>(cfg: Config<K>, s: Layout<K, V>, key: K, value: V, unique: bool, update: bool,
      s': Layout<K, V>, added: bool)
    requires Shape(cfg, s)
  {
    if added then
      exists i: nat, k: nat :: FirstFreeAt(cfg, s, key, i, k) && (unique || NoHitUpTo(cfg, s, key, k))
                               && s' == Insert(cfg, s, key, value, i)
    else
      !unique && exists i: nat, k: nat :: MatchAt(cfg, s, key, i, k)
                                          && s' == if update then Assign(s, i, value) else s
  }

  ghost predicate RemoveStep<K, V>(cfg: Config<K>, s: Layout<K, V>, key: K, s': Layout<K, V>, removed: bool)
    requires Shape(cfg, s)
  {
    if removed then exists i: nat, k: nat :: FirstHitAt(cfg, s, key, i, k) && s' == Bury(s, i)
    else s' == s && exists k: nat :: MissAt(cfg, s, key, k)
  }

  /** A rebuild: the same entries placed afresh, without tombstones. */
  ghost predicate RebuildStep<K, V>(cfg: Config<K>, s: Layout<K, V>, s': Layout<K, V>)
    requires Shape(cfg, s)
  {
    Inv(cfg, s') && s'.n >= s.n && NoTombstone(s') && Contents(s') == Contents(s)
  }

  /** `Rehash()` rebuilds a table that holds something; one that holds nothing stays as it is, tombstones included. */
  ghost predicate RehashStep<K, V>(cfg: Config<K>, s: Layout<K, V>, s': Layout<K, V>)
    requires Shape(cfg, s)
  {
    if Contents(s) == multiset{} then s' == s else RebuildStep(cfg, s, s')
  }

  ghost predicate ClearStep<K, V>(cfg: Config<K>, s: Layout<K, V>, s': Layout<K, V>) {
    Shape(cfg, s') && s'.n >= s.n && forall i | 0 <= i < s'.n :: s'.tags[i] == EMPTY
  }

  lemma FreshRebuild<K, V>(cfg: Config<K>, s: Layout<K, V>, s': Layout<K, V>)
    requires Inv(cfg, s) && Contents(s) == multiset{} && ClearStep(cfg, s, s')
    ensures RebuildStep(cfg, s, s') && Contents(s') == multiset{}
  {
    FreshIsEmpty(cfg, s');
  }

  lemma RebuiltTable<K, V>(cfg: Config<K>, s: Layout<K, V>, s': Layout<K, V>)
    requires Inv(cfg, s) && Inv(cfg, s') && s'.n >= s.n && NoTombstone(s') && Contents(s') == Contents(s)
    ensures RebuildStep(cfg, s, s')
  {
  }

  datatype Event<K, V> =
    | Added(key: K, value: V, unique: bool, update: bool, answer: bool)
    | Removed(key: K, answer: bool)
    | Rehashed
    | Rebuilt
    | Cleared

  ghost predicate Step<K, V>(cfg: Config<K>, s: Layout<K, V>, ev: Event<K, V>, s': Layout<K, V>) {
    && Shape(cfg, s)
    && match ev
       case Added(key, value, unique, update, answer) => AddStep(cfg, s, key, value, unique, update, s', answer)
       case Removed(key, answer) => RemoveStep(cfg, s, key, s', answer)
       case Rehashed => RehashStep(cfg, s, s')
       case Rebuilt => RebuildStep(cfg, s, s')
       case Cleared => ClearStep(cfg, s, s')
  }

  /** `states` are the successive layouts of a run whose events are `events`. */
  ghost predicate Execution<K, V>(cfg: Config<K>, states: seq<Layout<K, V>>, events: seq<Event<K, V>>) {
    && |states| == |events| + 1
    && forall i | 0 <= i < |events| :: Step(cfg, states[i], events[i], states[i + 1])
  }

  // ----- refinement of a multiset

  /** What one event does to a multiset of entries. */
  ghost predicate MultisetEffect<K, V>(c: multiset<Entry<K, V>>, ev: Event<K, V>, c': multiset<Entry<K, V>>) {
    match ev
    case Added(key, value, unique, update, answer) =>
      if answer then c' == c + multiset{Entry(key, value)}
      else !unique && exists e :: e in c && e.key == key
                                  && c' == if update then c - multiset{e} + multiset{Entry(key, value)} else c
    case Removed(key, answer) =>
      if answer then exists e :: e in c && e.key == key && c' == c - multiset{e}
      else c' == c && !HasKey(c, key)
    case Rehashed => c' == c
    case Rebuilt => c' == c
    case Cleared => c' == multiset{}
  }

  lemma AddRefinesMultiset<K, V>(cfg: Config<K>, s: Layout<K, V>, key: K, value: V, unique: bool, update: bool,
      s': Layout<K, V>, added: bool)
    requires Inv(cfg, s) && AddStep(cfg, s, key, value, unique, update, s', added)
    ensures Inv(cfg, s')
    ensures MultisetEffect(Contents(s), Added(key, value, unique, update, added), Contents(s'))
  {
    if added {
      var i: nat, k: nat :| FirstFreeAt(cfg, s, key, i, k) && s' == Insert(cfg, s, key, value, i);
      InsertKeeps(cfg, s, key, value, i, k);
    } else {
      var i: nat, k: nat :| MatchAt(cfg, s, key, i, k) && s' == if update then Assign(s, i, value) else s;
      AssignKeeps(cfg, s, i, value);
      OccupantAt(s.tags, s.entries, s.n, i);
      var c, e := Contents(s), s.entries[i];
      if update {
        MultisetSwap(c, Contents(s'), e, Entry(key, value));
      }
      assert e in c && e.key == key;
    }
  }

  ghost function AddedTo<K, V>(cfg: Config<K>, s: Layout<K, V>, key: K, value: V, update: bool, hit: bool,
      i: nat): Layout<K, V>
    requires Shape(cfg, s) && i < s.n
  {
    if !hit then Insert(cfg, s, key, value, i) else if update then Assign(s, i, value) else s
  }

  lemma TargetInRange<K, V>(cfg: Config<K>, s: Layout<K, V>, key: K, unique: bool, hit: bool, i: nat)
    requires Shape(cfg, s) && exists k: nat :: ScanTarget(cfg, s, key, unique, hit, i, k)
    ensures i < s.n
    ensures hit ==> Occupied(s.tags[i]) && s.entries[i].key == key
  {
    var k: nat :| ScanTarget(cfg, s, key, unique, hit, i, k);
    if hit {
      assert MatchAt(cfg, s, key, i, k);
    }
  }

  /** Acting on what the scan settled on is an addition step, and adds or exchanges exactly one entry. */
  lemma AddFollowsScan<K, V>(cfg: Config<K>, s: Layout<K, V>, key: K, value: V, unique: bool, update: bool,
      hit: bool, i: nat)
    requires Inv(cfg, s) && i < s.n && exists k: nat :: ScanTarget(cfg, s, key, unique, hit, i, k)
    ensures var s' := AddedTo(cfg, s, key, value, update, hit, i);
            && AddStep(cfg, s, key, value, unique, update, s', !hit)
            && Inv(cfg, s')
            && MultisetEffect(Contents(s), Added(key, value, unique, update, !hit), Contents(s'))
            && |Contents(s')| == |Contents(s)| + (if hit then 0 else 1)
  {
    var k: nat :| ScanTarget(cfg, s, key, unique, hit, i, k);
    var s' := AddedTo(cfg, s, key, value, update, hit, i);
    if hit {
      assert MatchAt(cfg, s, key, i, k);
    } else {
      assert FirstFreeAt(cfg, s, key, i, k);
    }
    assert AddStep(cfg, s, key, value, unique, update, s', !hit);
    AddRefinesMultiset(cfg, s, key, value, unique, update, s', !hit);
    EffectSize(Contents(s), key, value, unique, update, !hit, Contents(s'));
  }

  lemma EffectSize<K, V>(c: multiset<Entry<K, V>>, key: K, value: V, unique: bool, update: bool, added: bool,
      c': multiset<Entry<K, V>>)
    requires MultisetEffect(c, Added(key, value, unique, update, added), c')
    ensures |c'| == |c| + (if added then 1 else 0)
  {
  }

  lemma MultisetSwap<T>(c: multiset<T>, c': multiset<T>, e: T, x: T)
    requires e in c && c' + multiset{e} == c + multiset{x}
    ensures c' == c - multiset{e} + multiset{x}
  {
    assert c' == (c' + multiset{e}) - multiset{e};
  }

  lemma RemoveRefinesMultiset<K, V>(cfg: Config<K>, s: Layout<K, V>, key: K, s': Layout<K, V>, removed: bool)
    requires Inv(cfg, s) && RemoveStep(cfg, s, key, s', removed)
    ensures Inv(cfg, s') && MultisetEffect(Contents(s), Removed(key, removed), Contents(s'))
  {
    if removed {
      var i: nat, k: nat :| FirstHitAt(cfg, s, key, i, k) && s' == Bury(s, i);
      BuryKeeps(cfg, s, i);
      OccupantAt(s.tags, s.entries, s.n, i);
      assert Contents(s') == Contents(s) - multiset{s.entries[i]};
    } else {
      var k: nat :| MissAt(cfg, s, key, k);
      MissMeansAbsent(cfg, s, key, k);
      StoredIffHasKey(cfg, s, key);
    }
  }

  ghost function RemovedFrom<K, V>(s: Layout<K, V>, removed: bool, i: nat): Layout<K, V>
    requires removed ==> i < |s.tags|
  {
    if removed then Bury(s, i) else s
  }

  /** Burying what a lookup found is a removal step, and takes out exactly one entry of the key. */
  lemma RemoveFollowsLookup<K, V>(cfg: Config<K>, s: Layout<K, V>, key: K, removed: bool, i: nat)
    requires Inv(cfg, s) && exists k: nat :: LookupOutcome(cfg, s, key, removed, i, k)
    ensures removed ==> i < s.n
    ensures var s' := RemovedFrom(s, removed, i);
            && RemoveStep(cfg, s, key, s', removed)
            && Inv(cfg, s') && MultisetEffect(Contents(s), Removed(key, removed), Contents(s'))
            && |Contents(s')| == |Contents(s)| - (if removed then 1 else 0)
  {
    var k: nat :| LookupOutcome(cfg, s, key, removed, i, k);
    var s' := RemovedFrom(s, removed, i);
    if removed {
      assert FirstHitAt(cfg, s, key, i, k);
    } else {
      assert MissAt(cfg, s, key, k);
    }
    assert RemoveStep(cfg, s, key, s', removed);
    RemoveRefinesMultiset(cfg, s, key, s', removed);
  }

  lemma StepRefinesMultiset<K, V>(cfg: Config<K>, s: Layout<K, V>, ev: Event<K, V>, s': Layout<K, V>)
    requires Inv(cfg, s) && Step(cfg, s, ev, s')
    ensures Inv(cfg, s') && MultisetEffect(Contents(s), ev, Contents(s'))
  {
    match ev
    case Added(key, value, unique, update, answer) =>
      AddRefinesMultiset(cfg, s, key, value, unique, update, s', answer);
    case Removed(key, answer) =>
      RemoveRefinesMultiset(cfg, s, key, s', answer);
    case Rehashed =>
    case Rebuilt =>
    case Cleared =>
      FreshIsEmpty(cfg, s');
  }

  ghost predicate Follows<K, V>(cfg: Config<K>, s: Layout<K, V>, ev: Event<K, V>, s': Layout<K, V>) {
    Inv(cfg, s) && Inv(cfg, s') && MultisetEffect(Contents(s), ev, Contents(s'))
  }

  /** Over every run the table keeps its invariant and its contents follow the multiset. */
  lemma {:induction false} RunRefinesMultiset<K, V>(cfg: Config<K>, states: seq<Layout<K, V>>, events: seq<Event<K, V>>)
    requires Execution(cfg, states, events) && Inv(cfg, states[0])
    ensures forall i | 0 <= i < |states| :: Inv(cfg, states[i])
    ensures forall i | 0 <= i < |events| :: Follows(cfg, states[i], events[i], states[i + 1])
  {
    if events != [] {
      StepRefinesMultiset(cfg, states[0], events[0], states[1]);
      var rest, more := states[1..], events[1..];
      forall i | 0 <= i < |more|
        ensures Step(cfg, rest[i], more[i], rest[i + 1])
      {
        assert Step(cfg, states[i + 1], events[i + 1], states[i + 2]);
      }
      RunRefinesMultiset(cfg, rest, more);
      forall i | 0 < i < |states|
        ensures Inv(cfg, states[i])
      {
        assert Inv(cfg, rest[i - 1]);
      }
      forall i | 0 < i < |events|
        ensures Follows(cfg, states[i], events[i], states[i + 1])
      {
        assert Follows(cfg, rest[i - 1], more[i - 1], rest[i]);
      }
    }
  }

  /** Tombstones come from removals only. */
  lemma {:induction false} RunWithoutRemovals<K, V>(cfg: Config<K>, states: seq<Layout<K, V>>, events: seq<Event<K, V>>)
    requires Execution(cfg, states, events) && Inv(cfg, states[0]) && NoTombstone(states[0])
    requires forall i | 0 <= i < |events| :: events[i].Removed? ==> !events[i].answer
    ensures forall i | 0 <= i < |states| :: Inv(cfg, states[i]) && NoTombstone(states[i])
  {
    RunRefinesMultiset(cfg, states, events);
    for i := 0 to |events|
      invariant forall j | 0 <= j <= i :: NoTombstone(states[j])
    {
      StepWithoutRemoval(cfg, states[i], events[i], states[i + 1]);
    }
  }

  lemma StepWithoutRemoval<K, V>(cfg: Config<K>, s: Layout<K, V>, ev: Event<K, V>, s': Layout<K, V>)
    requires Inv(cfg, s) && Step(cfg, s, ev, s') && NoTombstone(s) && (ev.Removed? ==> !ev.answer)
    ensures NoTombstone(s')
  {
    if ev.Cleared? {
      FreshIsEmpty(cfg, s');
    }
  }

  // ----- refinement of a map

  /** What one event does to a map. */
  ghost function MapEffect<K, V>(m: map<K, V>, ev: Event<K, V>): map<K, V> {
    match ev
    case Added(key, value, unique, update, answer) => if answer || update then m[key := value] else m
    case Removed(key, answer) => m - {key}
    case Rehashed => m
    case Rebuilt => m
    case Cleared => map[]
  }

  /** The answer a finite map would give. */
  ghost predicate MapAnswer<K, V>(m: map<K, V>, ev: Event<K, V>) {
    match ev
    case Added(key, value, unique, update, answer) => answer <==> key !in m
    case Removed(key, answer) => answer <==> key in m
    case Rehashed => true
    case Rebuilt => true
    case Cleared => true
  }

  // ----- keys that are met before any free slot

  /** Slot `i` lies in a window of the probe for `key` that no window with a free slot precedes. */
  ghost predicate MetAt<K, V>(cfg: Config<K>, s: Layout<K, V>, key: K, i: nat, k: nat)
    requires Shape(cfg, s)
  {
    && Start(cfg, s.n, key, k) <= i < Start(cfg, s.n, key, k) + WINDOW
    && forall j: nat | j < k :: !HasFree(s.tags, Start(cfg, s.n, key, j))
  }

  ghost predicate Met<K, V>(cfg: Config<K>, s: Layout<K, V>, i: nat)
    requires Shape(cfg, s) && i < s.n
  {
    exists k: nat :: MetAt(cfg, s, s.entries[i].key, i, k)
  }

  /** Every stored key is met by its probe before any window with a free slot. */
  ghost predicate AllMet<K, V>(cfg: Config<K>, s: Layout<K, V>)
    requires Shape(cfg, s)
  {
    forall i: nat | i < s.n && Occupied(s.tags[i]) :: Met(cfg, s, i)
  }

  /** So it is without tombstones. */
  lemma NoTombstoneAllMet<K, V>(cfg: Config<K>, s: Layout<K, V>)
    requires Inv(cfg, s) && NoTombstone(s)
    ensures AllMet(cfg, s)
  {
    forall i: nat | i < s.n && Occupied(s.tags[i])
      ensures Met(cfg, s, i)
    {
      var key := s.entries[i].key;
      var k := WindowOf(cfg, s, i);
      forall j: nat | j < k
        ensures !HasFree(s.tags, Start(cfg, s.n, key, j))
      {
        assert !HasEmpty(s.tags, Start(cfg, s.n, key, j));
      }
      assert MetAt(cfg, s, key, i, k);
    }
  }

  /** And in a table that holds nothing. */
  lemma EmptyAllMet<K, V>(cfg: Config<K>, s: Layout<K, V>)
    requires Inv(cfg, s) && Contents(s) == multiset{}
    ensures AllMet(cfg, s)
  {
    if i: nat :| i < s.n && Occupied(s.tags[i]) {
      OccupantAt(s.tags, s.entries, s.n, i);
      assert false;
    }
  }

  lemma MetAtKept<K, V>(cfg: Config<K>, s: Layout<K, V>, s': Layout<K, V>, key: K, i: nat, k: nat)
    requires Shape(cfg, s) && Shape(cfg, s') && s.n == s'.n
    requires forall j | 0 <= j < |s.tags| :: Free(s'.tags[j]) ==> Free(s.tags[j])
    requires MetAt(cfg, s, key, i, k)
    ensures MetAt(cfg, s', key, i, k)
  {
    forall j: nat | j < k
      ensures !HasFree(s'.tags, Start(cfg, s.n, key, j))
    {
      assert !HasFree(s.tags, Start(cfg, s.n, key, j));
    }
  }

  lemma MetKept<K, V>(cfg: Config<K>, s: Layout<K, V>, s': Layout<K, V>, i: nat)
    requires Shape(cfg, s) && Shape(cfg, s') && s.n == s'.n
    requires forall j | 0 <= j < |s.tags| :: Free(s'.tags[j]) ==> Free(s.tags[j])
    requires i < s.n && s'.entries[i].key == s.entries[i].key && Met(cfg, s, i)
    ensures Met(cfg, s', i)
  {
    var key := s.entries[i].key;
    var k: nat :| MetAt(cfg, s, key, i, k);
    MetAtKept(cfg, s, s', key, i, k);
  }

  lemma InsertKeepsMet<K, V>(cfg: Config<K>, s: Layout<K, V>, key: K, value: V, i: nat, k: nat)
    requires Inv(cfg, s) && AllMet(cfg, s) && FirstFreeAt(cfg, s, key, i, k)
    ensures var s' := Insert(cfg, s, key, value, i); Shape(cfg, s') && AllMet(cfg, s')
  {
    var s' := Insert(cfg, s, key, value, i);
    assert Shape(cfg, s');
    assert MetAt(cfg, s, key, i, k);
    forall m: nat | m < s.n && Occupied(s'.tags[m])
      ensures Met(cfg, s', m)
    {
      if m == i {
        MetAtKept(cfg, s, s', key, i, k);
        assert s'.entries[m].key == key && MetAt(cfg, s', key, m, k);
      } else {
        MetKept(cfg, s, s', m);
      }
    }
  }

  lemma AssignKeepsMet<K, V>(cfg: Config<K>, s: Layout<K, V>, i: nat, value: V)
    requires Inv(cfg, s) && AllMet(cfg, s) && i < s.n && Occupied(s.tags[i])
    ensures var s' := Assign(s, i, value); Shape(cfg, s') && AllMet(cfg, s')
  {
    var s' := Assign(s, i, value);
    assert Shape(cfg, s');
    forall m: nat | m < s.n && Occupied(s'.tags[m])
      ensures Met(cfg, s', m)
    {
      MetKept(cfg, s, s', m);
    }
  }

  lemma MetBeforeFree<K, V>(cfg: Config<K>, s: Layout<K, V>, key: K, i: nat, k: nat) returns (t: nat)
    requires Inv(cfg, s) && AllMet(cfg, s) && i < s.n && Occupied(s.tags[i]) && s.entries[i].key == key
    requires HasFree(s.tags, Start(cfg, s.n, key, k))
    ensures t <= k && HasHit(cfg, s, key, Start(cfg, s.n, key, t))
  {
    assert Placed(cfg, s, i) && Met(cfg, s, i);
    t :| MetAt(cfg, s, key, i, t);
    assert Hit(cfg, s, key, i);
  }

  /** Where every stored key is met before a free slot, a checked insertion that finds a free slot had an absent key. */
  lemma VacancyMeansAbsent<K, V>(cfg: Config<K>, s: Layout<K, V>, key: K, i: nat, k: nat)
    requires Inv(cfg, s) && AllMet(cfg, s) && VacancyAt(cfg, s, key, i, k)
    ensures !Stored(cfg, s, key)
  {
    if x: nat :| x < s.n && Occupied(s.tags[x]) && s.entries[x].key == key {
      var t := MetBeforeFree(cfg, s, key, x, k);
      assert false;
    }
  }

  /** The caller's side of a run that stays a map: no insertion while removals may have left a key behind a free slot,
      and an unchecked insertion only for an absent key. */
  ghost predicate Allowed<K, V>(m: map<K, V>, dirty: bool, ev: Event<K, V>) {
    ev.Added? ==> !dirty && (ev.unique ==> ev.key !in m)
  }

  /** A removal that leaves something stored makes a table dirty; rehashing, growth and clearing make it clean. */
  ghost function Dirty<K, V>(m: map<K, V>, dirty: bool, ev: Event<K, V>): bool {
    match ev
    case Added(_, _, _, _, _) => dirty
    case Removed(key, answer) => (dirty || answer) && m - {key} != map[]
    case Rehashed => false
    case Rebuilt => false
    case Cleared => false
  }

  /** Where every stored key is met before a free slot, a checked insertion that succeeds had an absent key. */
  lemma AddedKeyIsNew<K, V>(cfg: Config<K>, s: Layout<K, V>, key: K, value: V, unique: bool, update: bool, s': Layout<K, V>)
    requires Inv(cfg, s) && AllMet(cfg, s) && AddStep(cfg, s, key, value, unique, update, s', true)
    ensures Shape(cfg, s') && AllMet(cfg, s') && (!unique ==> !HasKey(Contents(s), key))
  {
    var i: nat, k: nat :| FirstFreeAt(cfg, s, key, i, k) && (unique || NoHitUpTo(cfg, s, key, k))
                          && s' == Insert(cfg, s, key, value, i);
    InsertKeepsMet(cfg, s, key, value, i, k);
    if !unique {
      VacancyMeansAbsent(cfg, s, key, i, k);
      StoredIffHasKey(cfg, s, key);
    }
  }

  lemma AddRefinesMap<K, V>(cfg: Config<K>, s: Layout<K, V>, key: K, value: V, unique: bool, update: bool,
      s': Layout<K, V>, added: bool, m: map<K, V>)
    requires Inv(cfg, s) && AllMet(cfg, s) && AddStep(cfg, s, key, value, unique, update, s', added)
    requires MapLike(Contents(s), m) && (unique ==> key !in m)
    ensures Inv(cfg, s') && (added <==> key !in m) && AllMet(cfg, s')
    ensures MapLike(Contents(s'), if added || update then m[key := value] else m)
  {
    AddRefinesMultiset(cfg, s, key, value, unique, update, s', added);
    MapLikeKeys(Contents(s), m, key);
    if added {
      AddedKeyIsNew(cfg, s, key, value, unique, update, s');
      MapLikeInsert(Contents(s), m, key, value);
    } else {
      MapUpdate(Contents(s), Contents(s'), m, key, value, update);
      var i: nat, k: nat :| MatchAt(cfg, s, key, i, k) && s' == if update then Assign(s, i, value) else s;
      AssignKeepsMet(cfg, s, i, value);
    }
  }

  lemma MapUpdate<K, V>(c: multiset<Entry<K, V>>, c': multiset<Entry<K, V>>, m: map<K, V>, key: K, value: V, update: bool)
    requires MapLike(c, m) && MultisetEffect(c, Added(key, value, false, update, false), c')
    ensures MapLike(c', if update then m[key := value] else m)
  {
    var e :| e in c && e.key == key && c' == if update then c - multiset{e} + multiset{Entry(key, value)} else c;
    MapLikeAssign(c, m, e, value);
  }

  lemma RemoveRefinesMap<K, V>(cfg: Config<K>, s: Layout<K, V>, key: K, s': Layout<K, V>, removed: bool, m: map<K, V>)
    requires Inv(cfg, s) && RemoveStep(cfg, s, key, s', removed) && MapLike(Contents(s), m)
    ensures Inv(cfg, s') && (removed <==> key in m) && MapLike(Contents(s'), m - {key})
  {
    RemoveRefinesMultiset(cfg, s, key, s', removed);
    var c := Contents(s);
    MapLikeKeys(c, m, key);
    if removed {
      var e :| e in c && e.key == key && Contents(s') == c - multiset{e};
      MapLikeDelete(c, m, e);
    } else {
      assert m - {key} == m;
    }
  }

  lemma StepRefinesMap<K, V>(cfg: Config<K>, s: Layout<K, V>, ev: Event<K, V>, s': Layout<K, V>, m: map<K, V>, dirty: bool)
    requires Inv(cfg, s) && Step(cfg, s, ev, s')
    requires MapLike(Contents(s), m) && (!dirty ==> AllMet(cfg, s)) && Allowed(m, dirty, ev)
    ensures Inv(cfg, s') && MapAnswer(m, ev) && MapLike(Contents(s'), MapEffect(m, ev))
    ensures !Dirty(m, dirty, ev) ==> AllMet(cfg, s')
  {
    match ev
    case Added(key, value, unique, update, answer) =>
      AddRefinesMap(cfg, s, key, value, unique, update, s', answer, m);
    case Removed(key, answer) =>
      RemoveRefinesMap(cfg, s, key, s', answer, m);
      RemoveKeepsMet(cfg, s, key, s', answer, m, dirty);
    case Rehashed =>
      if Contents(s) == multiset{} {
        EmptyAllMet(cfg, s);
      } else {
        NoTombstoneAllMet(cfg, s');
      }
    case Rebuilt =>
      NoTombstoneAllMet(cfg, s');
    case Cleared =>
      FreshIsEmpty(cfg, s');
      NoTombstoneAllMet(cfg, s');
  }

  /** A removal that changes nothing, or takes out the last entry, leaves every stored key met. */
  lemma RemoveKeepsMet<K, V>(cfg: Config<K>, s: Layout<K, V>, key: K, s': Layout<K, V>, removed: bool, m: map<K, V>,
      dirty: bool)
    requires Inv(cfg, s) && RemoveStep(cfg, s, key, s', removed) && (!dirty ==> AllMet(cfg, s))
    requires Inv(cfg, s') && MapLike(Contents(s'), m - {key})
    ensures !Dirty(m, dirty, Removed(key, removed)) ==> AllMet(cfg, s')
  {
    if m - {key} == map[] {
      assert Contents(s') == multiset{};
      EmptyAllMet(cfg, s');
    }
  }

  ghost function MapAfter<K, V>(m: map<K, V>, events: seq<Event<K, V>>): map<K, V>
    decreases |events|
  {
    if events == [] then m else MapAfter(MapEffect(m, events[0]), events[1..])
  }

  ghost predicate RunAllowed<K, V>(m: map<K, V>, dirty: bool, events: seq<Event<K, V>>)
    decreases |events|
  {
    events == [] || (Allowed(m, dirty, events[0])
                     && RunAllowed(MapEffect(m, events[0]), Dirty(m, dirty, events[0]), events[1..]))
  }

  ghost function DirtyAfter<K, V>(m: map<K, V>, dirty: bool, events: seq<Event<K, V>>): bool
    decreases |events|
  {
    if events == [] then dirty else DirtyAfter(MapEffect(m, events[0]), Dirty(m, dirty, events[0]), events[1..])
  }

  ghost predicate MapAnswers<K, V>(m: map<K, V>, events: seq<Event<K, V>>)
    decreases |events|
  {
    events == [] || (MapAnswer(m, events[0]) && MapAnswers(MapEffect(m, events[0]), events[1..]))
  }

  /** A run that rehashes, grows, clears or removes everything between removals and the next insertion behaves as a
      finite map throughout. */
  lemma {:induction false} RunRefinesMap<K, V>(cfg: Config<K>, states: seq<Layout<K, V>>, events: seq<Event<K, V>>,
      m: map<K, V>, dirty: bool)
    requires Execution(cfg, states, events) && Inv(cfg, states[0])
    requires MapLike(Contents(states[0]), m) && (!dirty ==> AllMet(cfg, states[0]))
    requires RunAllowed(m, dirty, events)
    ensures MapAnswers(m, events)
    ensures Inv(cfg, states[|events|]) && MapLike(Contents(states[|events|]), MapAfter(m, events))
    ensures !DirtyAfter(m, dirty, events) ==> AllMet(cfg, states[|events|])
  {
    if events != [] {
      StepRefinesMap(cfg, states[0], events[0], states[1], m, dirty);
      var rest, more := states[1..], events[1..];
      forall i | 0 <= i < |more|
        ensures Step(cfg, rest[i], more[i], rest[i + 1])
      {
        assert Step(cfg, states[i + 1], events[i + 1], states[i + 2]);
      }
      RunRefinesMap(cfg, rest, more, MapEffect(m, events[0]), Dirty(m, dirty, events[0]));
    }
  }
}
