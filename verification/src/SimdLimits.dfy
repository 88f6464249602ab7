/** Where SimdHash stops being a map: when a checked insertion duplicates a key, a run after which no lookup of an
    absent key ends, and when rehashing does not take the tombstones away. */
module SimdLimits {
  import opened Arithmetic
  import opened Entries
  import opened SimdProbe
  import opened SimdLayout
  import opened SimdSteps
  import opened SimdRuns

  ghost predicate HasTombstone(tags: seq<Byte>, p: nat)
    requires p + WINDOW <= |tags|
  {
    exists i :: p <= i < p + WINDOW && tags[i] == TOMBSTONE
  }

  /** A window with a tombstone comes before every window of the probe that holds the key. */
  ghost predicate TombstoneAhead<K, V>(cfg: Config<K>, s: Layout<K, V>, key: K)
    requires Shape(cfg, s)
  {
    exists k: nat :: HasTombstone(s.tags, Start(cfg, s.n, key, k)) && NoHitUpTo(cfg, s, key, k)
  }

  lemma {:induction false} FirstStop<K, V>(cfg: Config<K>, s: Layout<K, V>, key: K, bound: nat, from: nat) returns (k: nat)
    requires Shape(cfg, s) && from <= bound && AddStops(cfg, s, key, bound)
    requires forall j: nat | j < from :: !AddStops(cfg, s, key, j)
    ensures k <= bound && AddStops(cfg, s, key, k) && forall j: nat | j < k :: !AddStops(cfg, s, key, j)
    decreases bound - from
  {
    if AddStops(cfg, s, key, from) {
      k := from;
    } else {
      k := FirstStop(cfg, s, key, bound, from + 1);
    }
  }

  lemma {:induction false} LowestFree(tags: seq<Byte>, p: nat, i: nat) returns (r: nat)
    requires p <= i < |tags| && Free(tags[i])
    ensures p <= r <= i && Free(tags[r]) && forall m | p <= m < r :: !Free(tags[m])
    decreases i
  {
    if m: nat :| p <= m < i && Free(tags[m]) {
      r := LowestFree(tags, p, m);
    } else {
      r := i;
    }
  }

  /** A checked insertion of a stored key puts in a second copy exactly when a tombstone is ahead of it. */
  lemma AddDuplicatesIff<K, V>(cfg: Config<K>, s: Layout<K, V>, key: K)
    requires Inv(cfg, s) && Stored(cfg, s, key)
    ensures (exists i: nat, k: nat :: VacancyAt(cfg, s, key, i, k)) <==> TombstoneAhead(cfg, s, key)
  {
    if i: nat, k: nat :| VacancyAt(cfg, s, key, i, k) {
      var p := Start(cfg, s.n, key, k);
      if s.tags[i] == EMPTY {
        assert HasEmpty(s.tags, p);
        MissMeansAbsent(cfg, s, key, k);
      } else {
        assert HasTombstone(s.tags, p);
      }
    }
    if b: nat :| HasTombstone(s.tags, Start(cfg, s.n, key, b)) && NoHitUpTo(cfg, s, key, b) {
      var t :| Start(cfg, s.n, key, b) <= t < Start(cfg, s.n, key, b) + WINDOW && s.tags[t] == TOMBSTONE;
      assert Free(s.tags[t]);
      var k := FirstStop(cfg, s, key, b, 0);
      var p := Start(cfg, s.n, key, k);
      assert HasFree(s.tags, p);
      var f :| p <= f < p + WINDOW && Free(s.tags[f]);
      var i := LowestFree(s.tags, p, f);
      forall j: nat | j < k
        ensures !HasFree(s.tags, Start(cfg, s.n, key, j))
      {
        assert !AddStops(cfg, s, key, j);
      }
      assert VacancyAt(cfg, s, key, i, k);
    }
  }

  ghost predicate DistinctSlots<K, V>(s: Layout<K, V>)
    requires s.n <= |s.tags| && s.n <= |s.entries|
  {
    forall i, j | 0 <= i < s.n && 0 <= j < s.n && Occupied(s.tags[i]) && Occupied(s.tags[j])
                  && s.entries[i].key == s.entries[j].key :: i == j
  }

  /** The condition that keeps a run a map is exact: with distinct keys every stored key is met before a free slot if
      and only if a tombstone is ahead of none of them. */
  lemma AllMetIff<K, V>(cfg: Config<K>, s: Layout<K, V>)
    requires Inv(cfg, s) && DistinctSlots(s)
    ensures AllMet(cfg, s) <==> forall key | Stored(cfg, s, key) :: !TombstoneAhead(cfg, s, key)
  {
    if AllMet(cfg, s) {
      forall key | Stored(cfg, s, key)
        ensures !TombstoneAhead(cfg, s, key)
      {
        AddDuplicatesIff(cfg, s, key);
        if i: nat, k: nat :| VacancyAt(cfg, s, key, i, k) {
          VacancyMeansAbsent(cfg, s, key, i, k);
        }
      }
    }
    if forall key | Stored(cfg, s, key) :: !TombstoneAhead(cfg, s, key) {
      forall i: nat | i < s.n && Occupied(s.tags[i])
        ensures Met(cfg, s, i)
      {
        NothingAheadMet(cfg, s, i);
      }
    }
  }

  lemma NothingAheadMet<K, V>(cfg: Config<K>, s: Layout<K, V>, i: nat)
    requires Inv(cfg, s) && DistinctSlots(s) && i < s.n && Occupied(s.tags[i])
    requires !TombstoneAhead(cfg, s, s.entries[i].key)
    ensures Met(cfg, s, i)
  {
    var key := s.entries[i].key;
    var k := WindowOf(cfg, s, i);
    var t := FirstHitWindow(cfg, s, key, k, 0);
    var x: nat :| Start(cfg, s.n, key, t) <= x < Start(cfg, s.n, key, t) + WINDOW && Hit(cfg, s, key, x);
    assert x == i;
    forall j: nat | j < t
      ensures !HasFree(s.tags, Start(cfg, s.n, key, j))
    {
      assert NoHitUpTo(cfg, s, key, j);
      assert !HasEmpty(s.tags, Start(cfg, s.n, key, j)) && !HasTombstone(s.tags, Start(cfg, s.n, key, j));
    }
    assert MetAt(cfg, s, key, i, t);
  }

  lemma {:induction false} FirstHitWindow<K, V>(cfg: Config<K>, s: Layout<K, V>, key: K, bound: nat, from: nat)
      returns (k: nat)
    requires Shape(cfg, s) && from <= bound && HasHit(cfg, s, key, Start(cfg, s.n, key, bound))
    requires forall j: nat | j < from :: !HasHit(cfg, s, key, Start(cfg, s.n, key, j))
    ensures k <= bound && HasHit(cfg, s, key, Start(cfg, s.n, key, k))
    ensures forall j: nat | j < k :: !HasHit(cfg, s, key, Start(cfg, s.n, key, j))
    decreases bound - from
  {
    if HasHit(cfg, s, key, Start(cfg, s.n, key, from)) {
      k := from;
    } else {
      k := FirstHitWindow(cfg, s, key, bound, from + 1);
    }
  }

  // ----- rehashing

  /** After `Rehash()` no tombstone is left if and only if something was stored or there was none before. */
  lemma RehashClearsIff<K, V>(cfg: Config<K>, s: Layout<K, V>, s': Layout<K, V>)
    requires Inv(cfg, s) && RehashStep(cfg, s, s')
    ensures NoTombstone(s') <==> Contents(s) != multiset{} || NoTombstone(s)
  {
  }

  // ----- a run that stores a key twice

  lemma MinimumCapacity()
    ensures Pow2(12) == MIN_SIZE && IsPow2(MIN_SIZE) && ProbeCapacity(MIN_SIZE) && GoodCapacity(Fast, MIN_SIZE)
  {
    assert Pow2(4) == 16 by { assert Pow2(2) == 4; }
    Pow2Sum(4, 4);
    Pow2Sum(8, 4);
  }

  function TagsWith(low: Byte, m: nat): (tags: seq<Byte>)
    ensures |tags| == MIN_SIZE + WINDOW
  {
    seq(MIN_SIZE + WINDOW, i requires 0 <= i =>
      if i >= MIN_SIZE then FORBIDDEN else if i < m then low else EMPTY)
  }

  /** Minimum capacity, slots below `m` tagged `low`, slot `i` holding key `i`. */
  function Filled(low: Byte, m: nat): Layout<nat, ()> {
    Layout(MIN_SIZE, TagsWith(low, m), seq(MIN_SIZE, i requires 0 <= i => Entry(i, ())))
  }

  function Constant(key: nat): Word64 { 0 }

  lemma ConstantHome(key: nat, k: nat)
    requires k <= 1
    ensures GoodCapacity(Fast, MIN_SIZE) && Start(Config(Constant, Fast), MIN_SIZE, key, k) == WINDOW * k
    ensures HashToTag(Constant(key)) == 0
  {
    MinimumCapacity();
    assert BitAnd(0, MIN_SIZE - 1) == 0;
    assert Home(Config(Constant, Fast), MIN_SIZE, key) == 0;
    assert Pos(0, 0, MIN_SIZE) == 0;
    assert Pos(0, 1, MIN_SIZE) == 16;
  }

  lemma FillStep(m: nat)
    requires m <= WINDOW
    ensures var cfg := Config(Constant, Fast);
            && Shape(cfg, Filled(0, m))
            && Step(cfg, Filled(0, m), Added(m, (), false, false, true), Filled(0, m + 1))
  {
    var cfg, s := Config(Constant, Fast), Filled(0, m);
    var k := m / WINDOW;
    MinimumCapacity();
    ConstantHome(m, 0);
    ConstantHome(m, 1);
    assert Shape(cfg, s);
    if k == 1 {
      assert !HasFree(s.tags, Start(cfg, s.n, m, 0));
    }
    assert FirstFreeAt(cfg, s, m, m, k);
    assert NoHitUpTo(cfg, s, m, k);
    assert Filled(0, m + 1) == Insert(cfg, s, m, (), m);
  }

  lemma ExtendRun<K, V>(cfg: Config<K>, states: seq<Layout<K, V>>, events: seq<Event<K, V>>, ev: Event<K, V>,
      s': Layout<K, V>)
    requires Execution(cfg, states, events) && Step(cfg, states[|events|], ev, s')
    ensures Execution(cfg, states + [s'], events + [ev])
  {
  }

  lemma {:induction false} FillRun(m: nat) returns (states: seq<Layout<nat, ()>>, events: seq<Event<nat, ()>>)
    requires m <= WINDOW + 1
    ensures var cfg := Config(Constant, Fast);
            && Execution(cfg, states, events) && states[0] == Filled(0, 0) && states[|events|] == Filled(0, m)
  {
    if m == 0 {
      states, events := [Filled(0, 0)], [];
    } else {
      states, events := FillRun(m - 1);
      FillStep(m - 1);
      ExtendRun(Config(Constant, Fast), states, events, Added(m - 1, (), false, false, true), Filled(0, m));
      states, events := states + [Filled(0, m)], events + [Added(m - 1, (), false, false, true)];
    }
  }

  lemma LastTwoSteps(cfg: Config<nat>, full: Layout<nat, ()>) returns (buried: Layout<nat, ()>, twice: Layout<nat, ()>)
    requires cfg == Config(Constant, Fast) && full == Filled(0, WINDOW + 1) && Inv(cfg, full)
    ensures Step(cfg, full, Removed(0, true), buried)
    ensures Step(cfg, buried, Added(WINDOW, (), false, false, true), twice)
    ensures Inv(cfg, twice) && Contents(twice)[Entry(WINDOW, ())] == 2
  {
    ConstantHome(0, 0);
    ConstantHome(WINDOW, 0);
    buried := Bury(full, 0);
    assert FirstHitAt(cfg, full, 0, 0, 0);
    BuryKeeps(cfg, full, 0);
    assert FirstFreeAt(cfg, buried, WINDOW, 0, 0);
    assert NoHitUpTo(cfg, buried, WINDOW, 0);
    InsertKeeps(cfg, buried, WINDOW, (), 0, 0);
    twice := Insert(cfg, buried, WINDOW, (), 0);
    StoredOnce(buried);
  }

  lemma StartsEmpty()
    ensures Inv(Config(Constant, Fast), Filled(0, 0)) && Contents(Filled(0, 0)) == multiset{}
  {
    MinimumCapacity();
    FreshIsEmpty(Config(Constant, Fast), Filled(0, 0));
  }

  lemma RunStays<K, V>(cfg: Config<K>, states: seq<Layout<K, V>>, events: seq<Event<K, V>>)
    requires Execution(cfg, states, events) && Inv(cfg, states[0])
    ensures Inv(cfg, states[|events|]) && |states| == |events| + 1
  {
    RunRefinesMultiset(cfg, states, events);
  }

  /** Seventeen keys with one home, the first removed, the last added again: it is now stored twice. */
  lemma AddCanDuplicate() returns (cfg: Config<nat>, states: seq<Layout<nat, ()>>, events: seq<Event<nat, ()>>)
    ensures Execution(cfg, states, events) && Inv(cfg, states[0]) && Contents(states[0]) == multiset{}
    ensures |events| > 0 && events[|events| - 1] == Added(WINDOW, (), false, false, true)
    ensures var s := states[|events|]; Inv(cfg, s) && Contents(s)[Entry(WINDOW, ())] == 2
  {
    hide *;
    cfg := Config(Constant, Fast);
    StartsEmpty();
    states, events := FillRun(WINDOW + 1);
    RunStays(cfg, states, events);
    var full := states[|events|];
    var buried, twice := LastTwoSteps(cfg, full);
    ExtendRun(cfg, states, events, Removed(0, true), buried);
    states, events := states + [buried], events + [Removed(0, true)];
    ExtendRun(cfg, states, events, Added(WINDOW, (), false, false, true), twice);
    states, events := states + [twice], events + [Added(WINDOW, (), false, false, true)];
  }

  lemma StoredOnce(s: Layout<nat, ()>)
    requires s == Bury(Filled(0, WINDOW + 1), 0)
    ensures Contents(s)[Entry(WINDOW, ())] == 1
  {
    CountAt(s.tags, s.entries, WINDOW, MIN_SIZE);
  }

  /** Entries of slots whose keys are their own indices are counted once. */
  lemma {:induction false} CountAt(tags: seq<Byte>, entries: seq<Entry<nat, ()>>, x: nat, m: nat)
    requires x < |tags| && m <= |tags| && m <= |entries| && Occupied(tags[x])
    requires forall i | 0 <= i < m :: entries[i] == Entry(i, ())
    ensures Occupants(tags, entries, m)[Entry(x, ())] == if x < m then 1 else 0
  {
    if m > 0 {
      CountAt(tags, entries, x, m - 1);
      assert One(tags, entries, m - 1)[Entry(x, ())] == if x == m - 1 then 1 else 0;
    }
  }

  // ----- a run after which lookups do not end

  function Identity(key: nat): Word64 { key % TWO_TO_64 }

  lemma IdentityHome(key: nat)
    requires key < MIN_SIZE
    ensures GoodCapacity(Fast, MIN_SIZE) && Start(Config(Identity, Fast), MIN_SIZE, key, 0) == key
    ensures HashToTag(Identity(key)) == 0
  {
    hide BitAnd, Pow2;
    MinimumCapacity();
    AdjustIsReduction(Fast, MIN_SIZE, key);
    WrapSmall(key, MIN_SIZE);
    FirstProbe(Config(Identity, Fast), MIN_SIZE, key);
  }

  /** The layouts of a run that adds and removes keys 0, 1, 2, ... in turn. */
  function Churned(j: nat): Layout<nat, ()> {
    if j % 2 == 0 then Filled(TOMBSTONE, j / 2)
    else Filled(TOMBSTONE, j / 2).(tags := Filled(TOMBSTONE, j / 2).tags[if j / 2 < MIN_SIZE then j / 2 else 0 := 0])
  }

  function ChurnEvent(j: nat): Event<nat, ()> {
    if j % 2 == 0 then Added(j / 2, (), false, false, true) else Removed(j / 2, true)
  }

  lemma ChurnStep(j: nat)
    requires j < 2 * MIN_SIZE
    ensures Step(Config(Identity, Fast), Churned(j), ChurnEvent(j), Churned(j + 1))
  {
    var m := j / 2;
    var cfg: Config<nat> := Config(Identity, Fast);
    var s: Layout<nat, ()> := Churned(j);
    IdentityHome(m);
    assert Shape(cfg, s);
    if j % 2 == 0 {
      assert FirstFreeAt(cfg, s, m, m, 0);
      assert NoHitUpTo(cfg, s, m, 0);
      assert Churned(j + 1) == Insert(cfg, s, m, (), m);
    } else {
      assert FirstHitAt(cfg, s, m, m, 0);
      assert (j + 1) / 2 == m + 1;
      assert Churned(j + 1) == Bury(s, m);
    }
  }

  /** Adding and removing every key of one page leaves an empty table in which no lookup ends. */
  lemma LookupCanDiverge() returns (cfg: Config<nat>, states: seq<Layout<nat, ()>>, events: seq<Event<nat, ()>>)
    ensures Execution(cfg, states, events) && Inv(cfg, states[0]) && Contents(states[0]) == multiset{}
    ensures var s := states[|states| - 1];
            && Inv(cfg, s) && Contents(s) == multiset{}
            && forall key :: !LookupEnds(cfg, s, key)
  {
    hide *;
    cfg := Config(Identity, Fast);
    states := seq(2 * MIN_SIZE + 1, j requires 0 <= j => Churned(j));
    events := seq(2 * MIN_SIZE, j requires 0 <= j => ChurnEvent(j));
    forall j | 0 <= j < |events|
      ensures Step(cfg, states[j], events[j], states[j + 1])
    {
      ChurnStep(j);
    }
    StepsExecute(cfg, states, events);
    ChurnEnds();
  }

  /** Rehashing that table leaves it as it is: there is still no lookup that ends, and a tombstone in every slot. */
  lemma RehashCanChangeNothing() returns (cfg: Config<nat>, states: seq<Layout<nat, ()>>, events: seq<Event<nat, ()>>)
    ensures Execution(cfg, states, events) && Inv(cfg, states[0]) && Contents(states[0]) == multiset{}
    ensures |events| > 0 && events[|events| - 1] == Rehashed
    ensures var s := states[|events|];
            Inv(cfg, s) && !NoTombstone(s) && forall key :: !LookupEnds(cfg, s, key)
  {
    hide *;
    cfg, states, events := LookupCanDiverge();
    RunStays(cfg, states, events);
    var s := states[|events|];
    assert s == states[|states| - 1];
    EmptiedRehash(cfg, s);
    SomeTombstone(cfg, s, 0);
    ExtendRun(cfg, states, events, Rehashed, s);
    states, events := states + [s], events + [Rehashed];
  }

  lemma EmptiedRehash<K, V>(cfg: Config<K>, s: Layout<K, V>)
    requires Inv(cfg, s) && Contents(s) == multiset{}
    ensures Step(cfg, s, Rehashed, s)
  {
  }

  /** In an empty table a lookup that does not end has met tombstones. */
  lemma SomeTombstone<K, V>(cfg: Config<K>, s: Layout<K, V>, key: K)
    requires Inv(cfg, s) && Contents(s) == multiset{} && !LookupEnds(cfg, s, key)
    ensures !NoTombstone(s)
  {
    hide Occupants, Pos, Home;
    var i := Start(cfg, s.n, key, 0);
    if Occupied(s.tags[i]) {
      OccupantAt(s.tags, s.entries, s.n, i);
    } else {
      assert !LookupStops(cfg, s, key, 0);
      assert s.tags[i] == TOMBSTONE;
    }
  }

  lemma StepsExecute<K, V>(cfg: Config<K>, states: seq<Layout<K, V>>, events: seq<Event<K, V>>)
    requires |states| == |events| + 1 && forall j | 0 <= j < |events| :: Step(cfg, states[j], events[j], states[j + 1])
    ensures Execution(cfg, states, events)
  {
  }

  /** The first layout of the run holds nothing, and the last holds nothing but tombstones. */
  lemma ChurnEnds()
    ensures var cfg := Config(Identity, Fast);
            && Inv(cfg, Churned(0)) && Contents(Churned(0)) == multiset{}
            && var s := Churned(2 * MIN_SIZE);
               Inv(cfg, s) && Contents(s) == multiset{} && forall key :: !LookupEnds(cfg, s, key)
  {
    hide *;
    var cfg: Config<nat> := Config(Identity, Fast);
    var s := Churned(2 * MIN_SIZE);
    FirstChurned();
    LastChurned();
    OccupantsEmptied(s);
    forall key
      ensures !LookupEnds(cfg, s, key)
    {
      NeverEnds(cfg, s, key);
    }
  }

  lemma FirstChurned()
    ensures Inv(Config(Identity, Fast), Churned(0)) && Contents(Churned(0)) == multiset{}
  {
    MinimumCapacity();
    hide Contents;
    FreshIsEmpty(Config(Identity, Fast), Churned(0));
  }

  lemma LastChurned()
    ensures var s := Churned(2 * MIN_SIZE);
            s == Filled(TOMBSTONE, MIN_SIZE) && Shape(Config(Identity, Fast), s) && Inv(Config(Identity, Fast), s)
  {
    MinimumCapacity();
    var cfg: Config<nat> := Config(Identity, Fast);
    var s: Layout<nat, ()> := Filled(TOMBSTONE, MIN_SIZE);
    assert 2 * MIN_SIZE / 2 == MIN_SIZE;
    assert Shape(cfg, s) && Inv(cfg, s);
  }

  lemma OccupantsEmptied(s: Layout<nat, ()>)
    requires s == Filled(TOMBSTONE, MIN_SIZE)
    ensures Contents(s) == multiset{}
  {
    hide Occupants;
    OccupantsEmpty(s.tags, s.entries, s.n);
  }

  lemma NeverEnds(cfg: Config<nat>, s: Layout<nat, ()>, key: nat)
    requires cfg == Config(Identity, Fast) && s == Filled(TOMBSTONE, MIN_SIZE) && Shape(cfg, s) && Inv(cfg, s)
    ensures !LookupEnds(cfg, s, key)
  {
    MinimumCapacity();
    LookupEndsIff(cfg, s, key);
  }
}
