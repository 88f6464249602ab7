/** The SimdHash index: keys are numbered 0, 1, 2, ... in the order of their insertion, and the slots hold those numbers. */
module SimdIndex {
  import opened Bags
  import opened Entries
  import opened LaneMasks
  import opened SimdProbe
  import opened SimdCapacity
  import opened SimdLayout
  import opened SimdSteps
  import opened SimdRuns
  import opened SimdRehash
  import opened SimdStorage

  /** Every key with its rank. */
  ghost function Ranked<K>(keys: seq<K>): (c: multiset<Entry<K, nat>>)
    ensures |c| == |keys|
  {
    if keys == [] then multiset{}
    else
      var last := |keys| - 1;
      Ranked(keys[..last]) + multiset{Entry(keys[last], last)}
  }

  /** Each rank occurs once, with its own key. */
  lemma {:induction false} RankedMember<K>(keys: seq<K>, e: Entry<K, nat>)
    ensures Ranked(keys)[e] == if e.value < |keys| && keys[e.value] == e.key then 1 else 0
  {
    if keys != [] {
      RankedMember(keys[..|keys| - 1], e);
    }
  }

  lemma RankedKeys<K>(keys: seq<K>, key: K)
    ensures HasKey(Ranked(keys), key) <==> key in keys
  {
    if key in keys {
      var i :| 0 <= i < |keys| && keys[i] == key;
      RankedMember(keys, Entry(key, i));
      assert Entry(key, i) in Ranked(keys);
    }
    if e :| e in Ranked(keys) && e.key == key {
      RankedMember(keys, e);
    }
  }

  lemma RankedGrows<K>(keys: seq<K>, key: K)
    ensures Ranked(keys + [key]) == Ranked(keys) + multiset{Entry(key, |keys|)}
  {
    assert (keys + [key])[..|keys|] == keys;
  }

  ghost predicate Distinct<K>(keys: seq<K>) {
    forall i, j | 0 <= i < j < |keys| :: keys[i] != keys[j]
  }

  /** The occupied slots and the ranks correspond one to one. */
  lemma SlotsMatchRanks<K>(cfg: Config<K>, s: Layout<K, nat>, keys: seq<K>)
    requires Inv(cfg, s) && Contents(s) == Ranked(keys)
    ensures forall i: nat | i < s.n && Occupied(s.tags[i]) ::
              s.entries[i].value < |keys| && s.entries[i].key == keys[s.entries[i].value]
    ensures forall r: nat | r < |keys| :: exists i: nat :: i < s.n && Occupied(s.tags[i])
                                                           && s.entries[i] == Entry(keys[r], r)
    ensures forall i: nat, j: nat | i < j < s.n && Occupied(s.tags[i]) && Occupied(s.tags[j]) ::
              s.entries[i].value != s.entries[j].value
  {
    forall i: nat | i < s.n && Occupied(s.tags[i])
      ensures s.entries[i].value < |keys| && s.entries[i].key == keys[s.entries[i].value]
    {
      OccupantAt(s.tags, s.entries, s.n, i);
      RankedMember(keys, s.entries[i]);
    }
    forall r: nat | r < |keys|
      ensures exists i: nat :: i < s.n && Occupied(s.tags[i]) && s.entries[i] == Entry(keys[r], r)
    {
      RankedMember(keys, Entry(keys[r], r));
      var i := SlotOf(s.tags, s.entries, s.n, Entry(keys[r], r));
    }
    forall i: nat, j: nat | i < j < s.n && Occupied(s.tags[i]) && Occupied(s.tags[j])
      ensures s.entries[i].value != s.entries[j].value
    {
      if s.entries[i] == s.entries[j] {
        TwiceCounted(s.tags, s.entries, i, j, s.n);
        RankedMember(keys, s.entries[i]);
      }
    }
  }

  lemma {:induction false} TwiceCounted<K, V>(tags: seq<Byte>, entries: seq<Entry<K, V>>, i: nat, j: nat, m: nat)
    requires i < j < m <= |tags| && m <= |entries|
    requires Occupied(tags[i]) && Occupied(tags[j]) && entries[i] == entries[j]
    ensures Occupants(tags, entries, m)[entries[i]] >= 2
  {
    if j == m - 1 {
      OccupantAt(tags, entries, m - 1, i);
    } else {
      TwiceCounted(tags, entries, i, j, m - 1);
    }
  }

  /** A lookup's entry carries the rank of its key. */
  lemma FoundRank<K>(cfg: Config<K>, s: Layout<K, nat>, keys: seq<K>, key: K, i: nat)
    requires Inv(cfg, s) && Contents(s) == Ranked(keys) && exists k: nat :: LookupOutcome(cfg, s, key, true, i, k)
    ensures i < s.n && Occupied(s.tags[i]) && s.entries[i].value < |keys| && keys[s.entries[i].value] == key
  {
    var k: nat :| LookupOutcome(cfg, s, key, true, i, k);
    assert FirstHitAt(cfg, s, key, i, k);
    SlotsMatchRanks(cfg, s, keys);
  }

  /** Without tombstones, and with a window's worth of room, adding a key keeps the ranks and gives the next one. */
  lemma AddRanks<K>(cfg: Config<K>, s: Layout<K, nat>, keys: seq<K>, key: K, unique: bool, hit: bool, i: nat)
    requires Inv(cfg, s) && NoTombstone(s) && Contents(s) == Ranked(keys)
    requires exists k: nat :: ScanTarget(cfg, s, key, unique, hit, i, k)
    ensures i < s.n
    ensures hit ==> !unique && Occupied(s.tags[i]) && s.entries[i].value < |keys| && keys[s.entries[i].value] == key
    ensures !hit && !unique ==> key !in keys
    ensures !hit ==> var s' := Insert(cfg, s, key, |keys|, i);
                     Inv(cfg, s') && NoTombstone(s') && Contents(s') == Ranked(keys + [key])
  {
    hide Inv, NoTombstone, Contents, Ranked, Insert, Shape, FirstFreeAt, NoHitUpTo, MatchAt;
    ShapeOf(cfg, s);
    var k: nat :| ScanTarget(cfg, s, key, unique, hit, i, k);
    if hit {
      MatchedRank(cfg, s, keys, key, i, k);
    } else {
      FreeSlotAt(cfg, s, key, i, k);
      InsertKeeps(cfg, s, key, |keys|, i, k);
      RankedGrows(keys, key);
      if !unique {
        AbsentRank(cfg, s, keys, key, i, k);
      }
    }
  }

  lemma MatchedRank<K>(cfg: Config<K>, s: Layout<K, nat>, keys: seq<K>, key: K, i: nat, k: nat)
    requires Inv(cfg, s) && Contents(s) == Ranked(keys) && MatchAt(cfg, s, key, i, k)
    ensures i < s.n && Occupied(s.tags[i]) && s.entries[i].value < |keys| && keys[s.entries[i].value] == key
  {
    hide Contents, Ranked;
    SlotsMatchRanks(cfg, s, keys);
  }

  /** The free slot found, and that inserting into it leaves no tombstone. */
  lemma FreeSlotAt<K>(cfg: Config<K>, s: Layout<K, nat>, key: K, i: nat, k: nat)
    requires Inv(cfg, s) && NoTombstone(s) && FirstFreeAt(cfg, s, key, i, k)
    ensures i < s.n && forall value :: NoTombstone(Insert(cfg, s, key, value, i))
  {
    hide Inv;
    ShapeOf(cfg, s);
  }

  lemma ShapeOf<K>(cfg: Config<K>, s: Layout<K, nat>)
    requires Inv(cfg, s)
    ensures Shape(cfg, s)
  {
  }

  lemma AbsentRank<K>(cfg: Config<K>, s: Layout<K, nat>, keys: seq<K>, key: K, i: nat, k: nat)
    requires Inv(cfg, s) && NoTombstone(s) && Contents(s) == Ranked(keys)
    requires FirstFreeAt(cfg, s, key, i, k) && NoHitUpTo(cfg, s, key, k)
    ensures key !in keys
  {
    hide Contents, Ranked, NoTombstone, FirstFreeAt, NoHitUpTo;
    NoTombstoneAllMet(cfg, s);
    VacancyMeansAbsent(cfg, s, key, i, k);
    StoredIffHasKey(cfg, s, key);
    RankedKeys(keys, key);
  }

  class Index<K(0,==)> {
    const cfg: Config<K>
    var tags: array<Byte>
    var realIndex: array<nat>
    var keys: array<K>
    var capacity: nat
    var count: nat
    var countGrowthLimit: int
    var maxLoadFactor: real
    /** For every occupied slot its key and rank; the key itself is stored only at its rank. */
    ghost var slots: seq<Entry<K, nat>>

    ghost function View(): Layout<K, nat>
      reads this, tags
    {
      Layout(capacity, tags[..], slots)
    }

    /** The keys in the order of their insertion. */
    ghost function Keys(): seq<K>
      requires count <= keys.Length
      reads this, keys
    {
      keys[..count]
    }

    ghost predicate Sized()
      reads this
    {
      && cfg.mode in {Fast, FastDivMod}
      && ProbeCapacity(capacity) && GoodCapacity(cfg.mode, capacity)
      && MIN_LOAD_FACTOR <= maxLoadFactor <= MAX_LOAD_FACTOR
      && countGrowthLimit == GrowthLimit(capacity, maxLoadFactor)
      && tags.Length == capacity + WINDOW
      && realIndex.Length == |slots| == capacity
      && count <= keys.Length
      && tags as object != realIndex && tags as object != keys && realIndex as object != keys
    }

    /** The slots' numbers are what `realIndex` holds, and lead to the slots' keys. */
    ghost predicate Linked()
      requires Sized()
      reads this, tags, realIndex, keys
    {
      forall i | 0 <= i < capacity && Occupied(tags[i]) ::
        slots[i].value == realIndex[i] < count && slots[i].key == keys[realIndex[i]]
    }

    ghost predicate Valid()
      reads this, tags, realIndex, keys
    {
      && Sized()
      && Linked()
      && Inv(cfg, View()) && NoTombstone(View())
      && Contents(View()) == Ranked(Keys())
    }

    lemma Facts()
      requires Sized()
      ensures GoodCapacity(cfg.mode, capacity) && ProbeCapacity(capacity)
      ensures tags.Length == capacity + WINDOW && realIndex.Length == |slots| == capacity && count <= keys.Length
      ensures View().n == capacity && View().tags == tags[..] && View().entries == slots
    {
    }

    lemma ValidFacts()
      requires Valid()
      ensures Sized() && Linked() && Inv(cfg, View()) && Shape(cfg, View()) && NoTombstone(View())
      ensures Contents(View()) == Ranked(Keys()) && |Contents(View())| == count == |Keys()| && Keys() == keys[..count]
    {
    }

    lemma LinkedAt(i: nat)
      requires Sized() && Linked() && i < capacity && Occupied(tags[i])
      ensures slots[i].value == realIndex[i] < count && slots[i].key == keys[realIndex[i]]
    {
    }

    /** Searches the tag matches of one window, lowest first, through the numbers in the slots. */
    method SearchWindow(key: K, target: Byte, tupleIndex: nat) returns (found: bool, slot: nat)
      requires Sized() && Linked() && Shape(cfg, View())
      requires tupleIndex < capacity && target == HashToTag(cfg.hash(key))
      ensures if found then LowestHit(cfg, View(), key, tupleIndex, slot) else !HasHit(cfg, View(), key, tupleIndex)
    {
      hide *;
      Facts();
      ghost var s := View();
      SearchStarts(cfg, s, key, tupleIndex);
      var resultMask := GetCmpMask(tags[tupleIndex..tupleIndex + WINDOW], target);
      while resultMask != {}
        invariant View() == s && Unsearched(cfg, s, key, tupleIndex, resultMask)
        decreases resultMask
      {
        SearchLane(cfg, s, key, tupleIndex, resultMask);
        var entryIndex := tupleIndex + TrailingZeroCount(resultMask);
        LinkedAt(entryIndex);
        if key == keys[realIndex[entryIndex]] {
          return true, entryIndex;
        }
        ResetShrinks(resultMask);
        resultMask := ResetLowestSetBit(resultMask);
      }
      SearchEnds(cfg, s, key, tupleIndex);
      return false, 0;
    }

    method FindEntry(key: K) returns (found: bool, slot: nat)
      requires Sized() && Linked() && Inv(cfg, View()) && LookupEnds(cfg, View(), key)
      ensures exists k: nat :: LookupOutcome(cfg, View(), key, found, slot, k)
      ensures found <==> HasKey(Contents(View()), key)
    {
      hide *;
      Facts();
      ghost var s := View();
      InvHasShape(cfg, s);
      LookupEndsAt(cfg, s, key);
      ghost var bound: nat :| LookupStops(cfg, s, key, bound);
      var hash := cfg.hash(key);
      FirstProbe(cfg, capacity, key);
      var tupleIndex := AdjustTupleIndex(cfg.mode, capacity, hash);
      var jump := 0;
      ghost var k: nat := 0;
      while true
        invariant tupleIndex == Start(cfg, capacity, key, k) && jump == Jump(k)
        invariant View() == s
        invariant k <= bound && forall j: nat | j < k :: !LookupStops(cfg, s, key, j)
        decreases bound - k
      {
        found, slot := SearchWindow(key, HashToTag(hash), tupleIndex);
        if found {
          ScanFinds(cfg, s, key, slot, k);
          return;
        }
        EmptyAheadMeans(cfg, s, key, k);
        if GetEmptyMask(tags[tupleIndex..tupleIndex + WINDOW]) != {} {
          ScanMisses(cfg, s, key, slot, k);
          return;
        }
        LookupGoesOn(cfg, s, key, k);
        NextProbe(cfg, capacity, key, k);
        jump := (jump + WINDOW) % 256;
        assert jump == Jump(k + 1);
        tupleIndex := AdjustTupleIndex(cfg.mode, capacity, tupleIndex + jump);
        k := k + 1;
      }
    }

    method ProbeForAdd(key: K, bUnique: bool) returns (hit: bool, slot: nat)
      requires Sized() && Linked() && Shape(cfg, View())
      requires exists k: nat :: ScanStops(cfg, View(), key, bUnique, k)
      ensures exists k: nat :: ScanTarget(cfg, View(), key, bUnique, hit, slot, k)
    {
      hide *;
      Facts();
      ghost var s := View();
      ghost var bound: nat :| ScanStops(cfg, s, key, bUnique, bound);
      var hash := cfg.hash(key);
      FirstProbe(cfg, capacity, key);
      var tupleIndex := AdjustTupleIndex(cfg.mode, capacity, hash);
      var jump := 0;
      hit := false;
      ghost var k: nat := 0;
      while true
        invariant tupleIndex == Start(cfg, capacity, key, k) && jump == Jump(k)
        invariant View() == s
        invariant k <= bound && forall j: nat | j < k :: !ScanStops(cfg, s, key, bUnique, j)
        decreases bound - k
      {
        if !bUnique {
          hit, slot := SearchWindow(key, HashToTag(hash), tupleIndex);
          if hit {
            ScanMatches(cfg, s, key, slot, k);
            return;
          }
        }
        ScanFreeMeans(cfg, s, key, bUnique, k);
        var emptyMask := GetEmptyOrTombstoneMask(tags[tupleIndex..tupleIndex + WINDOW]);
        if emptyMask != {} {
          slot := tupleIndex + TrailingZeroCount(emptyMask);
          hit := false;
          ScanFree(cfg, s, key, bUnique, slot, k);
          return;
        }
        NextProbe(cfg, capacity, key, k);
        jump := (jump + WINDOW) % 256;
        assert jump == Jump(k + 1);
        tupleIndex := AdjustTupleIndex(cfg.mode, capacity, tupleIndex + jump);
        k := k + 1;
      }
    }

    /** The rank of a key, exactly when the key has been added. */
    method TryGetIndex(key: K) returns (found: bool, index: nat)
      requires Valid() && count <= capacity - WINDOW
      ensures found <==> key in Keys()
      ensures found ==> index < count && Keys()[index] == key
      ensures found && Distinct(Keys()) ==> forall j | 0 <= j < count && Keys()[j] == key :: j == index
    {
      hide *;
      ValidFacts();
      Facts();
      LookupEndsWithoutTombstones(cfg, View(), key);
      var slot;
      found, slot := FindEntry(key);
      RankedKeys(Keys(), key);
      index := 0;
      if found {
        FoundRank(cfg, View(), Keys(), key, slot);
        LinkedAt(slot);
        index := realIndex[slot];
        RankIsUnique(Keys(), index);
      }
    }

    // ----- insertion and growth

    /** A table whose slots hold the first `r` keys. */
    ghost predicate Holding(r: nat)
      reads this, tags, realIndex, keys
    {
      && Sized() && Linked() && r <= count
      && Inv(cfg, View()) && NoTombstone(View())
      && Contents(View()) == Ranked(keys[..r])
    }

    lemma HoldingFacts(r: nat)
      requires Holding(r)
      ensures Sized() && Linked() && Inv(cfg, View()) && Shape(cfg, View()) && NoTombstone(View()) && ProbeCapacity(capacity)
      ensures tags.Length == capacity + WINDOW && realIndex.Length == |slots| == capacity && count <= keys.Length
      ensures View().n == capacity && View().tags == tags[..] && View().entries == slots && r <= count
      ensures Contents(View()) == Ranked(keys[..r]) && |Contents(View())| == r
    {
    }

    /** Gives a slot the tag of the key of rank `rank`, and the rank. */
    method Put(slot: nat, tag: Byte, rank: nat)
      requires Sized() && Linked() && Shape(cfg, View()) && slot < capacity && rank < count
      requires tag == HashToTag(cfg.hash(keys[rank]))
      modifies this`slots, tags, realIndex
      ensures Sized() && Linked() && View() == Insert(cfg, old(View()), keys[rank], rank, slot)
    {
      hide Shape, ProbeCapacity, GoodCapacity, HashToTag, GrowthLimit;
      tags[slot] := tag;
      realIndex[slot] := rank;
      slots := slots[slot := Entry(keys[rank], rank)];
      assert View() == Insert(cfg, old(View()), keys[rank], rank, slot);
    }

    /** Places the key of rank `r` after the keys before it. */
    method PlaceRank(r: nat)
      requires Holding(r) && r < count && r <= capacity - WINDOW
      modifies this`slots, tags, realIndex
      ensures Holding(r + 1)
    {
      hide *;
      HoldingFacts(r);
      ghost var s := View();
      var key := keys[r];
      var hash := cfg.hash(key);
      var tag := HashToTag(hash);
      ghost var room := InsertEnds(cfg, s, key);
      FreeIsEmpty(cfg, s, key, room);
      var slot := FindEmpty(cfg, tags, capacity, hash, s, key);
      EmptyInsert(cfg, s, key, r, slot);
      RankedGrows(keys[..r], key);
      assert keys[..r] + [key] == keys[..r + 1];
      Put(slot, tag, r);
      HoldingMade(r + 1);
    }

    lemma HoldingMade(r: nat)
      requires Sized() && Linked() && r <= count && Inv(cfg, View()) && NoTombstone(View())
      requires View().n <= |View().tags| && View().n <= |View().entries|
      requires Contents(View()) == Ranked(keys[..r])
      ensures Holding(r)
    {
    }

    /** Fills a fresh tag array with the keys in the order of their ranks. */
    method RehashInternal(size: nat)
      requires size == capacity && count <= capacity - WINDOW + 1
      requires realIndex.Length == |slots| == capacity && count <= keys.Length && realIndex as object != keys
      requires cfg.mode in {Fast, FastDivMod} && ProbeCapacity(capacity) && GoodCapacity(cfg.mode, capacity)
      requires MIN_LOAD_FACTOR <= maxLoadFactor <= MAX_LOAD_FACTOR
               && countGrowthLimit == GrowthLimit(capacity, maxLoadFactor)
      modifies this`tags, this`slots, realIndex
      ensures Valid() && fresh(tags)
    {
      hide Inv, Contents, NoTombstone, Shape, GrowthLimit, ProbeCapacity;
      tags := new Byte[size + WINDOW];
      InitTags(tags, size);
      StartHolding();
      var rank := 0;
      while rank < count
        invariant rank <= count && Holding(rank) && fresh(tags)
      {
        hide Holding;
        PlaceRank(rank);
        rank := rank + 1;
      }
    }

    lemma StartHolding()
      requires Sized()
      requires forall i | 0 <= i < capacity :: tags[i] == EMPTY
      requires forall i | capacity <= i < tags.Length :: tags[i] == FORBIDDEN
      ensures Holding(0)
    {
      FreshIsEmpty(cfg, View());
      assert keys[..0] == [];
    }

    /** A larger array for the ranks; what it holds does not matter before the rehash. */
    method GrowRealIndex()
      requires 0 < |slots| == realIndex.Length <= capacity
      modifies this`realIndex, this`slots
      ensures fresh(realIndex) && realIndex.Length == |slots| == capacity
    {
      var more := new nat[capacity];
      forall i | 0 <= i < realIndex.Length {
        more[i] := realIndex[i];
      }
      ghost var unused := slots[0];
      slots := seq(capacity, i => unused);
      realIndex := more;
    }

    method Resize(size: nat)
      requires Valid()
      modifies this`capacity, this`countGrowthLimit, this`tags, this`realIndex, this`slots, realIndex
      ensures Valid() && (tags == old(tags) || fresh(tags)) && (realIndex == old(realIndex) || fresh(realIndex))
      ensures Keys() == old(Keys())
      ensures capacity == if AdjustedCapacity(cfg.mode, size) <= old(capacity) then old(capacity)
              else AdjustedCapacity(cfg.mode, size)
      ensures capacity == old(capacity) ==> View() == old(View()) && countGrowthLimit == old(countGrowthLimit)
    {
      hide Inv, Contents, NoTombstone, Shape, GrowthLimit, ProbeCapacity;
      var adjusted := AdjustCapacity(cfg.mode, size);
      if capacity > adjusted { return; }
      AdjustedCapacityIsGood(cfg.mode, size);
      if adjusted > capacity {
        LargerCapacityDoubles(capacity, adjusted);
        CountBound(cfg, View());
      }
      capacity := adjusted;
      countGrowthLimit := GrowthLimit(capacity, maxLoadFactor);
      if capacity == tags.Length - WINDOW { return; }
      GrowRealIndex();
      if count == 0 {
        tags := new Byte[capacity + WINDOW];
        InitTags(tags, capacity);
        StartHolding();
      } else {
        RehashInternal(capacity);
      }
    }

    constructor (cfg: Config<K>)
      requires cfg.mode in {Fast, FastDivMod}
      ensures this.cfg == cfg && Valid() && fresh(tags) && fresh(realIndex) && fresh(keys)
      ensures capacity == MIN_SIZE && Keys() == [] && countGrowthLimit == 4000 && maxLoadFactor == DEF_LOAD_FACTOR
    {
      this.cfg := cfg;
      maxLoadFactor := DEF_LOAD_FACTOR;
      capacity := MIN_SIZE;
      countGrowthLimit := GrowthLimit(MIN_SIZE, DEF_LOAD_FACTOR);
      count := 0;
      tags := new Byte[MIN_SIZE + WINDOW];
      realIndex := new nat[MIN_SIZE];
      var none := new K[0];
      keys := none;
      ghost var k: K := *;
      slots := seq(MIN_SIZE, i => Entry(k, 0));
      new;
      hide Inv, Contents, GrowthLimit, NoTombstone, Shape;
      AdjustedCapacityIsGood(cfg.mode, MIN_SIZE);
      LimitLeavesRoom(MIN_SIZE, DEF_LOAD_FACTOR);
      FirstLimit();
      InitTags(tags, MIN_SIZE);
      StartHolding();
    }

    /** Stores a key at the next rank, extending the storage by pages when it is full. */
    method AppendKey(key: K)
      requires Valid()
      modifies this`keys, this`count, keys
      ensures Holding(old(count)) && (keys == old(keys) || fresh(keys))
      ensures count == old(count) + 1 && keys[..count] == old(Keys()) + [key]
    {
      hide Inv, Contents, NoTombstone, Shape, GrowthLimit, ProbeCapacity;
      ghost var before := Keys();
      if count == keys.Length {
        var more := new K[(count / PAGE_SIZE + 1) * PAGE_SIZE];
        forall i | 0 <= i < keys.Length {
          more[i] := keys[i];
        }
        keys := more;
      }
      keys[count] := key;
      count := count + 1;
      assert keys[..count - 1] == before;
      assert keys[..count] == before + [key];
      forall i | 0 <= i < capacity && Occupied(tags[i])
        ensures slots[i].value == realIndex[i] < count && slots[i].key == keys[realIndex[i]]
      {
        assert keys[realIndex[i]] == before[realIndex[i]];
      }
      assert View() == old(View());
    }

    /** Adds a key unless it is there; reports its rank either way. */
    method Add(key: K, bUnique: bool) returns (added: bool, index: nat)
      requires Valid() && count <= capacity - WINDOW
      modifies this`capacity, this`countGrowthLimit, this`tags, this`realIndex, this`slots, this`keys, this`count
      modifies tags, realIndex, keys
      ensures Valid() && (tags == old(tags) || fresh(tags)) && (realIndex == old(realIndex) || fresh(realIndex))
      ensures keys == old(keys) || fresh(keys)
      ensures Keys() == if added then old(Keys()) + [key] else old(Keys())
      ensures if added then index == old(count) else index < count && Keys()[index] == key
      ensures if bUnique then added else added <==> key !in old(Keys())
      ensures old(Distinct(Keys())) && (bUnique ==> key !in old(Keys())) ==> Distinct(Keys())
      ensures old(count < countGrowthLimit) && capacity < MAX_SIZE ==> count < countGrowthLimit
      ensures capacity == if added && old(count) + 1 == old(countGrowthLimit) && old(capacity) < MAX_SIZE
              then 2 * old(capacity) else old(capacity)
    {
      hide *;
      ValidFacts();
      Facts();
      ghost var s, before := View(), Keys();
      ghost var room := InsertEnds(cfg, s, key);
      InsertStopsScan(cfg, s, key, bUnique, room);
      var hit, slot := ProbeForAdd(key, bUnique);
      AddRanks(cfg, s, before, key, bUnique, hit, slot);
      if hit {
        LinkedAt(slot);
        return false, realIndex[slot];
      }
      if Distinct(before) && key !in before {
        AddedKeyKeepsDistinct(before, key);
      }
      index := count;
      StoreNew(key, slot, s, before);
      GrowAtLimit();
      return true, index;
    }

    /** Appends a new key and fills the slot found for it. */
    method StoreNew(key: K, slot: nat, ghost s: Layout<K, nat>, ghost before: seq<K>)
      requires Valid() && s == View() && before == Keys() && slot < s.n && Shape(cfg, s)
      requires var s' := Insert(cfg, s, key, count, slot);
               Inv(cfg, s') && NoTombstone(s') && Contents(s') == Ranked(before + [key])
      modifies this`slots, this`keys, this`count, tags, realIndex, keys
      ensures Valid() && (keys == old(keys) || fresh(keys))
      ensures Keys() == before + [key] && count == old(count) + 1
    {
      hide *;
      ValidFacts();
      Facts();
      var index := count;
      AppendKey(key);
      HoldingFacts(index);
      assert keys[index] == key by { assert keys[..count][index] == key; }
      Put(slot, HashToTag(cfg.hash(key)), index);
      Facts();
      HoldingMade(count);
      HoldingAll();
    }

    lemma HoldingAll()
      requires Holding(count)
      ensures Valid() && Keys() == keys[..count]
    {
    }

    method GrowAtLimit()
      requires Valid()
      modifies this`capacity, this`countGrowthLimit, this`tags, this`realIndex, this`slots, realIndex
      ensures Valid() && (tags == old(tags) || fresh(tags)) && (realIndex == old(realIndex) || fresh(realIndex))
      ensures Keys() == old(Keys())
      ensures if old(count == countGrowthLimit && capacity < MAX_SIZE)
              then capacity == 2 * old(capacity) && (capacity < MAX_SIZE ==> count < countGrowthLimit)
              else capacity == old(capacity) && countGrowthLimit == old(countGrowthLimit)
    {
      if count == countGrowthLimit {
        GrowthCapacity(cfg.mode, capacity, maxLoadFactor);
        Resize(capacity + 1);
      }
    }
  }

  lemma InsertStopsScan<K, V>(cfg: Config<K>, s: Layout<K, V>, key: K, unique: bool, k: nat)
    requires Shape(cfg, s) && InsertStops(cfg, s, key, k)
    ensures ScanStops(cfg, s, key, unique, k)
  {
  }

  lemma AddedKeyKeepsDistinct<K>(keys: seq<K>, key: K)
    requires Distinct(keys) && key !in keys
    ensures Distinct(keys + [key])
  {
  }

  lemma FreeIsEmpty<K, V>(cfg: Config<K>, s: Layout<K, V>, key: K, k: nat)
    requires Shape(cfg, s) && NoTombstone(s) && InsertStops(cfg, s, key, k)
    ensures EmptyAhead(cfg, s, key, k)
  {
  }

  lemma EmptyInsert<K, V>(cfg: Config<K>, s: Layout<K, V>, key: K, value: V, i: nat)
    requires Inv(cfg, s) && NoTombstone(s) && exists k: nat :: FirstEmptyAt(cfg, s, key, i, k)
    ensures i < s.n && Shape(cfg, s) && s.n <= |s.tags| && s.n <= |s.entries|
    ensures var s' := Insert(cfg, s, key, value, i);
            && s'.n == s.n && |s'.tags| == |s.tags| && |s'.entries| == |s.entries|
            && Inv(cfg, s') && NoTombstone(s') && Contents(s') == Contents(s) + multiset{Entry(key, value)}
  {
    var k: nat :| FirstEmptyAt(cfg, s, key, i, k);
    FirstEmptyIsFree(cfg, s, key, i, k);
    InsertKeeps(cfg, s, key, value, i, k);
  }

  lemma RankIsUnique<K>(keys: seq<K>, r: nat)
    requires r < |keys|
    ensures Distinct(keys) ==> forall j | 0 <= j < |keys| && keys[j] == keys[r] :: j == r
  {
  }
}
