/** The SimdHash table for maps and sets, with its tag and entry arrays updated in place. */
module SimdCore {
  import opened Bags
  import opened Entries
  import opened LaneMasks
  import opened SimdProbe
  import opened SimdLayout
  import opened SimdSteps
  import opened SimdRuns
  import opened SimdRehash
  import opened SimdCapacity
  import opened SimdStorage

  class Core<K(0,==), V(0)> {
    const cfg: Config<K>
    var tags: array<Byte>
    var entries: array<Entry<K, V>>
    var capacity: nat
    var count: nat
    var countGrowthLimit: int
    var maxLoadFactor: real

    ghost function View(): Layout<K, V>
      reads this, tags, entries
    {
      Layout(capacity, tags[..], entries[..])
    }

    /** The capacity, the limit that belongs to it, and the storage for that many entries. */
    ghost predicate Settings()
      reads `capacity, `maxLoadFactor, `countGrowthLimit, `entries, `tags
    {
      && cfg.mode in {Fast, FastDivMod}
      && ProbeCapacity(capacity) && GoodCapacity(cfg.mode, capacity)
      && MIN_LOAD_FACTOR <= maxLoadFactor <= MAX_LOAD_FACTOR
      && countGrowthLimit == GrowthLimit(capacity, maxLoadFactor)
      && entries.Length == capacity
      && tags as object != entries
    }

    ghost predicate Sized()
      reads `capacity, `maxLoadFactor, `countGrowthLimit, `entries, `tags
    {
      Settings() && tags.Length == capacity + WINDOW
    }

    /** The table as its tag array still has it, whatever the capacity is about to be. */
    ghost function Previous(): Layout<K, V>
      requires tags.Length >= WINDOW
      reads this, tags, entries
    {
      Layout(tags.Length - WINDOW, tags[..], entries[..])
    }

    ghost predicate Valid()
      reads this, tags, entries
    {
      && Sized()
      && Inv(cfg, View())
      && count == |Contents(View())|
    }

    lemma Facts()
      requires Sized()
      ensures GoodCapacity(cfg.mode, capacity) && ProbeCapacity(capacity)
      ensures tags.Length == capacity + WINDOW && entries.Length == capacity && tags as object != entries
      ensures View().n == capacity && View().tags == tags[..] && View().entries == entries[..]
    {
    }

    lemma ValidFacts()
      requires Valid()
      ensures Sized() && Inv(cfg, View()) && Shape(cfg, View()) && count == |Contents(View())|
      ensures View().n == capacity == entries.Length && View().entries == entries[..] && View().tags == tags[..]
      ensures |View().tags| == capacity + WINDOW
    {
    }

    /** Searches the tag matches of one window, lowest first. */
    method SearchWindow(key: K, target: Byte, tupleIndex: nat) returns (found: bool, slot: nat)
      requires Sized() && Shape(cfg, View())
      requires tupleIndex < capacity && target == HashToTag(cfg.hash(key))
      ensures if found then LowestHit(cfg, View(), key, tupleIndex, slot) else !HasHit(cfg, View(), key, tupleIndex)
    {
      hide *;
      Facts();
      ghost var s := View();
      SearchStarts(cfg, s, key, tupleIndex);
      var resultMask := GetCmpMask(tags[tupleIndex..tupleIndex + WINDOW], target);
      while resultMask != {}
        invariant View() == s && Unsearched(cfg, s, key, tupleIndex, resultMask)
        decreases resultMask
      {
        SearchLane(cfg, s, key, tupleIndex, resultMask);
        var entryIndex := tupleIndex + TrailingZeroCount(resultMask);
        if key == entries[entryIndex].key {
          return true, entryIndex;
        }
        ResetShrinks(resultMask);
        resultMask := ResetLowestSetBit(resultMask);
      }
      SearchEnds(cfg, s, key, tupleIndex);
      return false, 0;
    }

    method FindEntry(key: K) returns (found: bool, slot: nat)
      requires Sized() && Inv(cfg, View()) && LookupEnds(cfg, View(), key)
      ensures exists k: nat :: LookupOutcome(cfg, View(), key, found, slot, k)
      ensures found <==> HasKey(Contents(View()), key)
    {
      hide *;
      Facts();
      ghost var s := View();
      InvHasShape(cfg, s);
      LookupEndsAt(cfg, s, key);
      ghost var bound: nat :| LookupStops(cfg, s, key, bound);
      var hash := cfg.hash(key);
      FirstProbe(cfg, capacity, key);
      var tupleIndex := AdjustTupleIndex(cfg.mode, capacity, hash);
      var jump := 0;
      ghost var k: nat := 0;
      while true
        invariant tupleIndex == Start(cfg, capacity, key, k) && jump == Jump(k)
        invariant View() == s
        invariant k <= bound && forall j: nat | j < k :: !LookupStops(cfg, s, key, j)
        decreases bound - k
      {
        found, slot := SearchWindow(key, HashToTag(hash), tupleIndex);
        if found {
          ScanFinds(cfg, s, key, slot, k);
          return;
        }
        EmptyAheadMeans(cfg, s, key, k);
        if GetEmptyMask(tags[tupleIndex..tupleIndex + WINDOW]) != {} {
          ScanMisses(cfg, s, key, slot, k);
          return;
        }
        LookupGoesOn(cfg, s, key, k);
        NextProbe(cfg, capacity, key, k);
        jump := (jump + WINDOW) % 256;
        assert jump == Jump(k + 1);
        tupleIndex := AdjustTupleIndex(cfg.mode, capacity, tupleIndex + jump);
        k := k + 1;
      }
    }

    /** The scan of an insertion: the key's entry, unless `bUnique`, or the slot to fill. */
    method ProbeForAdd(key: K, bUnique: bool) returns (hit: bool, slot: nat)
      requires Sized() && Shape(cfg, View())
      requires exists k: nat :: ScanStops(cfg, View(), key, bUnique, k)
      ensures exists k: nat :: ScanTarget(cfg, View(), key, bUnique, hit, slot, k)
    {
      hide *;
      Facts();
      ghost var s := View();
      ghost var bound: nat :| ScanStops(cfg, s, key, bUnique, bound);
      var hash := cfg.hash(key);
      FirstProbe(cfg, capacity, key);
      var tupleIndex := AdjustTupleIndex(cfg.mode, capacity, hash);
      var jump := 0;
      hit := false;
      ghost var k: nat := 0;
      while true
        invariant tupleIndex == Start(cfg, capacity, key, k) && jump == Jump(k)
        invariant View() == s
        invariant k <= bound && forall j: nat | j < k :: !ScanStops(cfg, s, key, bUnique, j)
        decreases bound - k
      {
        if !bUnique {
          hit, slot := SearchWindow(key, HashToTag(hash), tupleIndex);
          if hit {
            ScanMatches(cfg, s, key, slot, k);
            return;
          }
        }
        ScanFreeMeans(cfg, s, key, bUnique, k);
        var emptyMask := GetEmptyOrTombstoneMask(tags[tupleIndex..tupleIndex + WINDOW]);
        if emptyMask != {} {
          slot := tupleIndex + TrailingZeroCount(emptyMask);
          hit := false;
          ScanFree(cfg, s, key, bUnique, slot, k);
          return;
        }
        NextProbe(cfg, capacity, key, k);
        jump := (jump + WINDOW) % 256;
        assert jump == Jump(k + 1);
        tupleIndex := AdjustTupleIndex(cfg.mode, capacity, tupleIndex + jump);
        k := k + 1;
      }
    }

    method Remove(key: K) returns (removed: bool)
      requires Valid() && LookupEnds(cfg, View(), key)
      modifies this`count, tags
      ensures Valid()
      ensures RemoveStep(cfg, old(View()), key, View(), removed)
      ensures MultisetEffect(old(Contents(View())), Removed(key, removed), Contents(View()))
      ensures count == old(count) - (if removed then 1 else 0)
    {
      hide Inv, Shape, Contents, RemoveStep, MultisetEffect, LookupEnds, LookupOutcome, HasKey, ProbeCapacity, GoodCapacity;
      ghost var s := View();
      var slot;
      removed, slot := FindEntry(key);
      RemoveFollowsLookup(cfg, s, key, removed, slot);
      if removed {
        tags[slot] := TOMBSTONE;
        count := count - 1;
      }
      assert View() == RemovedFrom(s, removed, slot);
    }

    /** Stores an entry and its tag in a slot. */
    method Put(slot: nat, tag: Byte, entry: Entry<K, V>)
      requires Sized() && Shape(cfg, View()) && slot < capacity && tag == HashToTag(cfg.hash(entry.key))
      modifies this`count, tags, entries
      ensures Sized() && View() == Insert(cfg, old(View()), entry.key, entry.value, slot)
      ensures count == old(count) + 1
    {
      hide Shape, ProbeCapacity, GoodCapacity, HashToTag;
      tags[slot] := tag;
      entries[slot] := entry;
      count := count + 1;
      assert View() == Insert(cfg, old(View()), entry.key, entry.value, slot);
    }

    /** A rehash under way: the table is being rebuilt in `tags`, old entries still wait in the slots that
        `prevTags` marks, none of them below `i`, and `hand` holds what has been lifted out. */
    ghost predicate Moving(prevTags: array<Byte>, i: nat, hand: multiset<Entry<K, V>>, all: multiset<Entry<K, V>>)
      reads this, tags, entries, prevTags
    {
      && Sized()
      && prevTags != tags && prevTags as object != entries
      && WINDOW <= prevTags.Length <= capacity + WINDOW
      && Rehashing(cfg, View(), prevTags[..], prevTags.Length - WINDOW, hand, all)
      && |all| <= capacity - WINDOW + 1
      && count == |Contents(View())|
      && i <= prevTags.Length - WINDOW
      && forall j | 0 <= j < i :: prevTags[j] >= EMPTY
    }

    lemma MovingStarts(prevTags: array<Byte>, was: Layout<K, V>)
      requires Sized() && prevTags != tags && prevTags as object != entries && count == 0
      requires WINDOW <= prevTags.Length <= capacity + WINDOW
      requires was == Layout(prevTags.Length - WINDOW, prevTags[..], entries[..]) && Inv(cfg, was)
      requires |Contents(was)| <= capacity - WINDOW + 1
      requires forall i | 0 <= i < capacity :: tags[i] == EMPTY
      requires forall i | capacity <= i < tags.Length :: tags[i] == FORBIDDEN
      ensures Moving(prevTags, 0, multiset{}, Contents(was))
    {
      RehashStarts(cfg, was, View());
      FreshIsEmpty(cfg, View());
    }

    lemma MovingSkips(prevTags: array<Byte>, i: nat, all: multiset<Entry<K, V>>)
      requires Moving(prevTags, i, multiset{}, all) && i < prevTags.Length - WINDOW && prevTags[i] >= EMPTY
      ensures Moving(prevTags, i + 1, multiset{}, all)
    {
      hide Rehashing, Sized, Contents;
    }

    lemma MovingEnds(prevTags: array<Byte>, all: multiset<Entry<K, V>>)
      requires prevTags.Length >= WINDOW && Moving(prevTags, prevTags.Length - WINDOW, multiset{}, all)
      ensures Valid() && NoTombstone(View()) && Contents(View()) == all && count == |all|
    {
      RehashDone(cfg, View(), prevTags[..], prevTags.Length - WINDOW, all);
    }

    lemma MovingFacts(prevTags: array<Byte>, i: nat, hand: multiset<Entry<K, V>>, all: multiset<Entry<K, V>>)
      requires Moving(prevTags, i, hand, all)
      ensures Sized() && prevTags != tags && prevTags as object != entries
      ensures WINDOW <= prevTags.Length <= capacity + WINDOW && entries.Length == capacity
              && tags.Length == capacity + WINDOW
      ensures View().n == capacity && View().tags == tags[..] && View().entries == entries[..] && Shape(cfg, View())
      ensures Rehashing(cfg, View(), prevTags[..], prevTags.Length - WINDOW, hand, all)
      ensures ProbeCapacity(capacity) && |all| <= capacity - WINDOW + 1
      ensures count == |Contents(View())| && i <= prevTags.Length - WINDOW
      ensures forall j | 0 <= j < i :: prevTags[j] >= EMPTY
    {
    }

    lemma MovingMade(prevTags: array<Byte>, i: nat, hand: multiset<Entry<K, V>>, all: multiset<Entry<K, V>>,
        cur: Layout<K, V>, pending: seq<Byte>)
      requires Sized() && prevTags != tags && prevTags as object != entries
      requires WINDOW <= prevTags.Length <= capacity + WINDOW
      requires View() == cur && prevTags[..] == pending
      requires Rehashing(cfg, cur, pending, |pending| - WINDOW, hand, all)
      requires |all| <= capacity - WINDOW + 1
      requires cur.n <= |cur.tags| && cur.n <= |cur.entries| && count == |Contents(cur)| && i <= prevTags.Length - WINDOW
      requires forall j | 0 <= j < i :: pending[j] >= EMPTY
      ensures Moving(prevTags, i, hand, all)
    {
      hide Rehashing, Contents, Settings;
    }

    ghost predicate NextSlot(entry: Entry<K, V>, slot: nat)
      reads this, tags, entries
    {
      Sized() && Shape(cfg, View()) && exists k: nat :: FirstEmptyAt(cfg, View(), entry.key, slot, k)
    }

    /** The slot where the entry in hand belongs. */
    method FindNext(prevTags: array<Byte>, i: nat, entry: Entry<K, V>, ghost all: multiset<Entry<K, V>>) returns (slot: nat)
      requires Moving(prevTags, i, multiset{entry}, all)
      ensures NextSlot(entry, slot) && Moving(prevTags, i, multiset{entry}, all)
    {
      hide Rehashing, Contents, Settings, FirstEmptyAt, EmptyAhead, Shape;
      ghost var m := prevTags.Length - WINDOW;
      RehashShape(cfg, View(), prevTags[..], m, multiset{entry}, all);
      Facts();
      ghost var room := RehashRoom(cfg, View(), prevTags[..], m, entry, all);
      slot := FindEmpty(cfg, tags, capacity, cfg.hash(entry.key), View(), entry.key);
    }

    /** Puts the entry in hand where nothing waits. */
    method Settle(prevTags: array<Byte>, i: nat, tag: Byte, entry: Entry<K, V>, slot: nat, ghost all: multiset<Entry<K, V>>)
      requires Moving(prevTags, i, multiset{entry}, all) && NextSlot(entry, slot) && tag == HashToTag(cfg.hash(entry.key))
      requires slot < prevTags.Length - WINDOW ==> prevTags[slot] >= EMPTY
      modifies this`count, tags, entries
      ensures Moving(prevTags, i, multiset{}, all) && prevTags[..] == old(prevTags[..])
    {
      hide Rehashing, Contents, Settings, FirstEmptyAt, Shape, HashToTag;
      ghost var cur, pending, m := View(), prevTags[..], prevTags.Length - WINDOW;
      ghost var k: nat :| FirstEmptyAt(cfg, cur, entry.key, slot, k);
      RehashFree(cfg, cur, pending, m, multiset{entry}, all, entry.key, slot, k);
      PlaceKeeps(cfg, cur, pending, m, entry, all, slot, k);
      Put(slot, tag, entry);
    }

    /** Puts the entry in hand where an old one waits, and takes that one in hand. */
    method Evict(prevTags: array<Byte>, i: nat, tag: Byte, entry: Entry<K, V>, slot: nat, ghost all: multiset<Entry<K, V>>)
        returns (saveTag: Byte, saveEntry: Entry<K, V>)
      requires Moving(prevTags, i, multiset{entry}, all) && NextSlot(entry, slot) && tag == HashToTag(cfg.hash(entry.key))
      requires slot < prevTags.Length - WINDOW && prevTags[slot] < EMPTY
      modifies this`count, tags, entries, prevTags
      ensures Moving(prevTags, i, multiset{saveEntry}, all) && saveTag == HashToTag(cfg.hash(saveEntry.key))
      ensures prevTags[..] == old(prevTags[..])[slot := EMPTY]
      ensures Waiting(prevTags) < old(Waiting(prevTags))
    {
      hide *;
      MovingFacts(prevTags, i, multiset{entry}, all);
      ghost var cur, pending, m := View(), prevTags[..], prevTags.Length - WINDOW;
      EvictOne(cur, pending, m, entry, all, slot);
      WaitingIs(prevTags, cur, pending);
      saveTag := prevTags[slot];
      prevTags[slot] := EMPTY;
      saveEntry := entries[slot];
      Put(slot, tag, entry);
      assert prevTags[..] == pending[slot := EMPTY];
      MovingMade(prevTags, i, multiset{saveEntry}, all, View(), prevTags[..]);
      WaitingIs(prevTags, View(), prevTags[..]);
    }

    lemma WaitingIs(prevTags: array<Byte>, cur: Layout<K, V>, pending: seq<Byte>)
      requires View() == cur && prevTags[..] == pending && WINDOW <= prevTags.Length <= entries.Length + WINDOW
      ensures Waiting(prevTags) == |Occupants(pending, cur.entries, |pending| - WINDOW)|
    {
    }

    lemma EvictOne(cur: Layout<K, V>, pending: seq<Byte>, m: nat, entry: Entry<K, V>, all: multiset<Entry<K, V>>, slot: nat)
      requires cur == View() && NextSlot(entry, slot)
      requires Rehashing(cfg, cur, pending, m, multiset{entry}, all)
      requires slot < m <= |pending| && pending[slot] < EMPTY
      ensures slot < cur.n && Shape(cfg, cur) && m <= cur.n <= |cur.entries| && cur.n <= |cur.tags|
      ensures var cur' := Insert(cfg, cur, entry.key, entry.value, slot);
              && cur'.n == cur.n && |cur'.entries| == |cur.entries| && |cur'.tags| == |cur.tags|
              && Rehashing(cfg, cur', pending[slot := EMPTY], m, multiset{cur.entries[slot]}, all)
              && |Contents(cur')| == |Contents(cur)| + 1
              && |Occupants(pending[slot := EMPTY], cur'.entries, m)| < |Occupants(pending, cur.entries, m)|
      ensures pending[slot] == HashToTag(cfg.hash(cur.entries[slot].key))
    {
      var k: nat :| FirstEmptyAt(cfg, cur, entry.key, slot, k);
      RehashFree(cfg, cur, pending, m, multiset{entry}, all, entry.key, slot, k);
      EvictKeeps(cfg, cur, pending, m, entry, all, slot, k);
    }

    /** How many old entries still wait. */
    ghost function Waiting(prevTags: array<Byte>): nat
      reads this, entries, prevTags
    {
      if WINDOW <= prevTags.Length <= entries.Length + WINDOW then
        |Occupants(prevTags[..], entries[..], prevTags.Length - WINDOW)|
      else 0
    }

    /** Moves the entry of slot `i` to its new place, together with everything it displaces. */
    method MoveFrom(prevTags: array<Byte>, i: nat, ghost all: multiset<Entry<K, V>>)
      requires Moving(prevTags, i, multiset{}, all)
      requires i < prevTags.Length - WINDOW && prevTags[i] < EMPTY
      modifies this`count, tags, entries, prevTags
      ensures Moving(prevTags, i, multiset{}, all) && prevTags[i] >= EMPTY
    {
      hide Rehashing, Contents, Settings, NextSlot, HashToTag, Waiting;
      Facts();
      PickKeeps(cfg, View(), prevTags[..], prevTags.Length - WINDOW, all, i);
      ghost var pending := prevTags[..];
      var prevTag := prevTags[i];
      var entry := entries[i];
      prevTags[i] := EMPTY;
      assert prevTags[..] == pending[i := EMPTY];
      var emptyIndex := FindNext(prevTags, i, entry, all);
      if emptyIndex == i {
        // the entry stays in its own slot
        Settle(prevTags, i, prevTag, entry, i, all);
        return;
      }
      if emptyIndex >= prevTags.Length - WINDOW || prevTags[emptyIndex] >= EMPTY {
        Settle(prevTags, i, prevTag, entry, emptyIndex, all);
        return;
      }
      Chase(prevTags, i, prevTag, entry, emptyIndex, all);
    }

    /** The displacement chain: places the entry in hand, lifts out the one that waited there, and goes on with it. */
    method Chase(prevTags: array<Byte>, i: nat, tag: Byte, entry: Entry<K, V>, slot: nat, ghost all: multiset<Entry<K, V>>)
      requires Moving(prevTags, i, multiset{entry}, all) && NextSlot(entry, slot) && tag == HashToTag(cfg.hash(entry.key))
      requires i < prevTags.Length - WINDOW && prevTags[i] >= EMPTY
      requires slot < prevTags.Length - WINDOW && prevTags[slot] < EMPTY
      modifies this`count, tags, entries, prevTags
      ensures Moving(prevTags, i, multiset{}, all) && prevTags[i] >= EMPTY
    {
      hide *;
      var prevTag, prevEntry := tag, entry;
      var emptyIndex: nat := slot;
      while true
        invariant Moving(prevTags, i, multiset{prevEntry}, all) && NextSlot(prevEntry, emptyIndex)
        invariant prevTag == HashToTag(cfg.hash(prevEntry.key)) && prevTags[i] >= EMPTY
        invariant emptyIndex < prevTags.Length - WINDOW && prevTags[emptyIndex] < EMPTY
        decreases Waiting(prevTags)
      {
        prevTag, prevEntry := Evict(prevTags, i, prevTag, prevEntry, emptyIndex, all);
        emptyIndex := FindNext(prevTags, i, prevEntry, all);
        if emptyIndex >= prevTags.Length - WINDOW || prevTags[emptyIndex] >= EMPTY {
          Settle(prevTags, i, prevTag, prevEntry, emptyIndex, all);
          return;
        }
      }
    }

    /** Rehashes in place: lifts each old entry, and whatever its new slot displaces, into a fresh tag array. */
    method RehashInternal(size: nat)
      requires Settings() && tags.Length >= WINDOW
      requires size == capacity >= tags.Length - WINDOW
      requires Inv(cfg, Previous()) && count == |Contents(Previous())| && count <= size - WINDOW + 1
      modifies this`tags, this`count, tags, entries
      ensures Valid() && fresh(tags) && NoTombstone(View())
      ensures Contents(View()) == old(Contents(Previous())) && count == old(count)
    {
      hide Inv, Contents, Moving, NoTombstone, Shape, Rehashing;
      ghost var all := Contents(Previous());
      ghost var was := Previous();
      var prevTags := tags;
      var prevSize := prevTags.Length - WINDOW;
      tags := new Byte[size + WINDOW];
      InitTags(tags, size);
      var prevCount := count;
      count := 0;
      MovingStarts(prevTags, was);
      var i := 0;
      while i < prevSize
        invariant i <= prevSize && Moving(prevTags, i, multiset{}, all) && fresh(tags)
      {
        var prevTag := prevTags[i];
        if prevTag < EMPTY {
          MoveFrom(prevTags, i, all);
        }
        MovingSkips(prevTags, i, all);
        i := i + 1;
      }
      MovingEnds(prevTags, all);
      assert prevCount == count;
    }

    /** Rehashes with the present capacity, unless nothing is stored: then every tombstone stays. The load leaves room
        whenever the limit has been kept. */
    method Rehash()
      requires Valid() && count <= capacity - WINDOW + 1
      modifies this`tags, this`count, tags, entries
      ensures Valid() && (tags == old(tags) || fresh(tags))
      ensures count == old(count) && Contents(View()) == old(Contents(View()))
      ensures RehashStep(cfg, old(View()), View())
      ensures count != 0 ==> NoTombstone(View())
      ensures count == 0 ==> View() == old(View())
    {
      if count != 0 {
        PreviousIsView();
        RehashInternal(tags.Length - WINDOW);
      }
    }

    lemma PreviousIsView()
      requires Sized()
      ensures Previous() == View()
    {
    }

    /** Sets the load factor when it is in range, and the limit in any case. */
    method SetMaxLoadFactor(f: real)
      requires Valid()
      modifies this`maxLoadFactor, this`countGrowthLimit
      ensures Valid() && View() == old(View())
      ensures maxLoadFactor == if MIN_LOAD_FACTOR <= f <= MAX_LOAD_FACTOR then f else old(maxLoadFactor)
      ensures countGrowthLimit == GrowthLimit(capacity, maxLoadFactor)
      ensures if capacity >= MAX_SIZE then countGrowthLimit == MAX_SIZE
              else countGrowthLimit as real <= capacity as real * maxLoadFactor < countGrowthLimit as real + 1.0
    {
      hide Inv, Contents, GrowthLimit;
      if f >= MIN_LOAD_FACTOR && f <= MAX_LOAD_FACTOR {
        maxLoadFactor := f;
      }
      countGrowthLimit := GrowthLimit(capacity, maxLoadFactor);
      LimitIsShare(capacity, maxLoadFactor);
    }

    /** In every state the limit follows from the capacity and the load factor. */
    lemma LimitFollows()
      requires Settings()
      ensures if capacity >= MAX_SIZE then countGrowthLimit == MAX_SIZE
              else countGrowthLimit as real <= capacity as real * maxLoadFactor < countGrowthLimit as real + 1.0
    {
      hide GrowthLimit;
      LimitIsShare(capacity, maxLoadFactor);
    }

    lemma InitIsClear(before: Layout<K, V>)
      requires Sized() && before.n <= capacity
      requires forall i | 0 <= i < capacity :: tags[i] == EMPTY
      requires forall i | capacity <= i < tags.Length :: tags[i] == FORBIDDEN
      ensures ClearStep(cfg, before, View()) && View().n >= before.n
    {
    }

    /** Extends the entry storage; the entries already there stay where they are. */
    method GrowEntries(size: nat)
      requires entries.Length < size
      modifies this`entries
      ensures fresh(entries) && entries.Length == size
      ensures old(entries[..]) <= entries[..]
    {
      var more := new Entry<K, V>[size];
      forall i | 0 <= i < entries.Length {
        more[i] := entries[i];
      }
      entries := more;
    }

    /** Makes room for at least `size` slots; a table that has to grow is rehashed into the larger capacity. */
    method Resize(size: nat)
      requires Valid()
      modifies this`capacity, this`countGrowthLimit, this`tags, this`entries, this`count, tags, entries
      ensures Valid() && (tags == old(tags) || fresh(tags)) && (entries == old(entries) || fresh(entries))
      ensures count == old(count)
      ensures if AdjustedCapacity(cfg.mode, size) <= old(capacity) then View() == old(View())
              else capacity == AdjustedCapacity(cfg.mode, size) && RebuildStep(cfg, old(View()), View())
    {
      var adjusted := AdjustCapacity(cfg.mode, size);
      if capacity > adjusted { return; }
      InitCapacity(size);
      if capacity == tags.Length - WINDOW { return; }
      Enlarge();
    }

    method InitCapacity(size: nat)
      requires Settings()
      modifies this`capacity, this`countGrowthLimit
      ensures capacity == AdjustedCapacity(cfg.mode, size) && ProbeCapacity(capacity) && GoodCapacity(cfg.mode, capacity)
      ensures countGrowthLimit == GrowthLimit(capacity, maxLoadFactor)
    {
      AdjustedCapacityIsGood(cfg.mode, size);
      capacity := AdjustCapacity(cfg.mode, size);
      countGrowthLimit := GrowthLimit(capacity, maxLoadFactor);
    }

    /** The part of a resize that has a new capacity to fill. */
    method Enlarge()
      requires cfg.mode in {Fast, FastDivMod} && ProbeCapacity(capacity) && GoodCapacity(cfg.mode, capacity)
      requires MIN_LOAD_FACTOR <= maxLoadFactor <= MAX_LOAD_FACTOR
      requires countGrowthLimit == GrowthLimit(capacity, maxLoadFactor)
      requires tags.Length >= WINDOW && entries.Length == tags.Length - WINDOW && tags as object != entries
      requires ProbeCapacity(tags.Length - WINDOW) && tags.Length - WINDOW < capacity
      requires Inv(cfg, Previous()) && count == |Contents(Previous())|
      modifies this`tags, this`entries, this`count, tags
      ensures Valid() && fresh(tags) && fresh(entries) && count == old(count)
      ensures RebuildStep(cfg, old(Previous()), View())
    {
      hide Inv, Contents, GrowthLimit, NoTombstone, RebuildStep, ProbeCapacity, Shape;
      ghost var before := Previous();
      LargerCapacityDoubles(tags.Length - WINDOW, capacity);
      CountBound(cfg, before);
      GrowEntries(capacity);
      MoreEntries(cfg, before, Previous());
      if count == 0 {
        tags := new Byte[capacity + WINDOW];
        InitTags(tags, capacity);
        InitIsClear(before);
        FreshRebuild(cfg, before, View());
      } else {
        RehashInternal(capacity);
        RebuiltTable(cfg, before, View());
      }
    }

    /** Doubles the capacity when the count has just reached the limit, unless the capacity is the largest. */
    method GrowAtLimit()
      requires Valid()
      modifies this`capacity, this`countGrowthLimit, this`tags, this`entries, this`count, tags, entries
      ensures Valid() && (tags == old(tags) || fresh(tags)) && (entries == old(entries) || fresh(entries))
      ensures count == old(count)
      ensures if old(count == countGrowthLimit && capacity < MAX_SIZE)
              then capacity == 2 * old(capacity) && RebuildStep(cfg, old(View()), View())
                   && (capacity < MAX_SIZE ==> count < countGrowthLimit)
              else View() == old(View()) && countGrowthLimit == old(countGrowthLimit)
    {
      if count == countGrowthLimit {
        GrowthCapacity(cfg.mode, capacity, maxLoadFactor);
        Resize(capacity + 1);
      }
    }

    /** Adds an entry. `bUnique` skips the search for the key, `bUpdate` assigns the value of a key that is found. */
    method Add(key: K, value: V, bUnique: bool, bUpdate: bool) returns (added: bool)
      requires Valid() && exists k: nat :: ScanStops(cfg, View(), key, bUnique, k)
      modifies this`capacity, this`countGrowthLimit, this`tags, this`entries, this`count, tags, entries
      ensures Valid() && (tags == old(tags) || fresh(tags)) && (entries == old(entries) || fresh(entries))
      ensures exists mid: Layout<K, V> ::
                && AddStep(cfg, old(View()), key, value, bUnique, bUpdate, mid, added)
                && if added && old(count) + 1 == old(countGrowthLimit) && old(capacity) < MAX_SIZE
                   then capacity == 2 * old(capacity) && RebuildStep(cfg, mid, View())
                   else View() == mid
      ensures MultisetEffect(old(Contents(View())), Added(key, value, bUnique, bUpdate, added), Contents(View()))
      ensures count == old(count) + (if added then 1 else 0)
      ensures old(count < countGrowthLimit) && capacity < MAX_SIZE ==> count < countGrowthLimit
    {
      hide Inv, Shape, Contents, Settings, GrowthLimit, AddStep, ScanTarget, ScanStops, MultisetEffect, HashToTag;
      ghost var s := View();
      InvHasShape(cfg, s);
      Facts();
      var hit, slot := ProbeForAdd(key, bUnique);
      TargetInRange(cfg, s, key, bUnique, hit, slot);
      AddFollowsScan(cfg, s, key, value, bUnique, bUpdate, hit, slot);
      if hit {
        if bUpdate {
          entries[slot] := Entry(entries[slot].key, value);
        }
        assert View() == AddedTo(cfg, s, key, value, bUpdate, hit, slot);
        return false;
      }
      Put(slot, HashToTag(cfg.hash(key)), Entry(key, value));
      ghost var mid := View();
      GrowAtLimit();
      return true;
    }

    /** An empty table of the smallest capacity. */
    constructor (cfg: Config<K>)
      requires cfg.mode in {Fast, FastDivMod}
      ensures this.cfg == cfg && Valid() && fresh(tags) && fresh(entries)
      ensures capacity == MIN_SIZE && count == 0 && countGrowthLimit == 4000 && maxLoadFactor == DEF_LOAD_FACTOR
      ensures Contents(View()) == multiset{} && NoTombstone(View())
    {
      this.cfg := cfg;
      maxLoadFactor := DEF_LOAD_FACTOR;
      capacity := MIN_SIZE;
      countGrowthLimit := GrowthLimit(MIN_SIZE, DEF_LOAD_FACTOR);
      count := 0;
      tags := new Byte[MIN_SIZE + WINDOW];
      entries := new Entry<K, V>[MIN_SIZE];
      new;
      hide Inv, Contents, GrowthLimit, NoTombstone, Shape;
      AdjustedCapacityIsGood(cfg.mode, MIN_SIZE);
      LimitLeavesRoom(MIN_SIZE, DEF_LOAD_FACTOR);
      FirstLimit();
      InitTags(tags, MIN_SIZE);
      InitIsClear(View());
      ClearedTable(View());
    }

    lemma ClearedTable(before: Layout<K, V>)
      requires Sized() && count == 0 && ClearStep(cfg, before, View())
      ensures Valid() && NoTombstone(View()) && Contents(View()) == multiset{}
    {
      FreshIsEmpty(cfg, View());
    }

    /** Empties the table; a `size` that asks for more capacity is met, one that asks for less is refused by the storage. */
    method Clear(size: nat)
      requires Valid() && (size > 0 ==> AdjustedCapacity(cfg.mode, size) >= capacity)
      modifies this`capacity, this`countGrowthLimit, this`tags, this`entries, this`count, tags
      ensures Valid() && (tags == old(tags) || fresh(tags)) && (entries == old(entries) || fresh(entries))
      ensures ClearStep(cfg, old(View()), View()) && NoTombstone(View()) && count == 0
      ensures capacity == if size > 0 then AdjustedCapacity(cfg.mode, size) else old(capacity)
    {
      hide Inv, Contents, GrowthLimit, NoTombstone, ProbeCapacity, ClearStep;
      ghost var before := View();
      count := 0;
      if size > 0 {
        var adjusted := AdjustCapacity(cfg.mode, size);
        if adjusted != capacity {
          InitCapacity(size);
          GrowEntries(capacity);
          tags := new Byte[capacity + WINDOW];
          InitTags(tags, capacity);
          InitIsClear(before);
          ClearedTable(before);
          return;
        }
      }
      InitTags(tags, capacity);
      InitIsClear(before);
      ClearedTable(before);
    }

    // ----- the front ends of maps and sets

    method Contains(key: K) returns (found: bool)
      requires Valid() && LookupEnds(cfg, View(), key)
      ensures found <==> HasKey(Contents(View()), key)
    {
      var slot;
      found, slot := FindEntry(key);
    }

    /** The value of the key's first entry; for a table that is a map, the value the map has for the key. */
    method TryGetValue(key: K) returns (r: Option<V>)
      requires Valid() && LookupEnds(cfg, View(), key)
      ensures r.Some? <==> HasKey(Contents(View()), key)
      ensures r.Some? ==> Entry(key, r.value) in Contents(View())
      ensures forall m: map<K, V> | MapLike(Contents(View()), m) ::
                r == if key in m then Some(m[key]) else None
    {
      hide *;
      ghost var s := View();
      ValidFacts();
      var found, slot := FindEntry(key);
      if !found {
        AbsentFromMaps(s, key);
        return None;
      }
      FoundEntry(cfg, s, key, slot);
      r := Some(entries[slot].value);
      PresentInMaps(s, key, entries[slot].value);
    }
  }
}
