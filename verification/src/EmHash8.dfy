/** The emhash8 hash map: pairs stored densely, found through chains threaded over an array of buckets. */
module EmHash8 {
  import opened Arithmetic
  import opened Entries
  import opened DenseValues
  import opened ChainForest

  /** `_mlf` is 2^27 divided by the load factor. */
  const LOAD_ONE: nat := 0x800_0000

  const DEFAULT_LOAD_FACTOR: real := 0.8
  const MIN_LOAD_FACTOR: real := 0.25

  class Table<K(==), V> {
    const hash: K -> Word64
    var index: seq<Cell>
    var pairs: seq<Entry<K, V>>
    var numBuckets: nat
    var last: nat
    var etail: int
    var mlf: nat
    /** The bucket of every slot, and the chain of every main bucket. */
    ghost var at: map<nat, nat>
    ghost var chains: seq<seq<nat>>

    ghost function Sp(): Space<K>
      reads `numBuckets
    {
      Space(hash, numBuckets)
    }

    ghost function Keys(): seq<K>
      reads `pairs
    {
      KeysOf(pairs)
    }

    /** The chains and the slots stored in them agree with `keys`, of which `pairs` holds the stored ones. */
    ghost predicate Linked(keys: seq<K>)
      reads `index, `pairs, `numBuckets, `at, `chains
    {
      Forest(Sp(), index, keys, at, chains) && forall s | s in at :: s < |pairs| && s < |keys| && keys[s] == pairs[s].key
    }

    ghost predicate Tail()
      reads `etail, `at, `pairs
    {
      etail == INACTIVE || (pairs != [] && |pairs| - 1 in at && at[|pairs| - 1] == etail)
    }

    /** What the pairs, the index and the chains are to one another, whatever room the pairs have. */
    ghost predicate Stored()
      reads this
    {
      && Linked(Keys()) && Covers(at, |pairs|) && |pairs| <= numBuckets && DistinctKeys(pairs)
      && Tail() && last <= numBuckets && LOAD_ONE <= mlf && 4 <= numBuckets
    }

    /** Besides, the pairs lie within the buffer that was allocated for them with the present buckets and load factor. */
    ghost predicate Valid()
      reads this
    {
      Stored() && |pairs| <= PairRoom(numBuckets, mlf)
    }

    /** Growth stays below the largest number of buckets. */
    ghost predicate MayGrow()
      reads this
    {
      Required(|pairs|, mlf) + 2 < MAX_BUCKETS
    }

    /** Bucket `b` is empty and, once it holds slot `s`, the chains are right again. */
    ghost predicate Allocated(keys: seq<K>, s: nat, b: nat)
      reads `index, `numBuckets, `at, `chains
    {
      && b < numBuckets && b < |index| && index[b].next < 0 && s < |keys|
      && Forest(Sp(), index[b := Cell(b, Packed(Sp(), s, keys[s]))], keys, at[s := b], chains)
    }

    /** Bucket `b` holds a pair with the key. */
    ghost predicate Found(key: K, b: nat)
      reads `index, `numBuckets, `at, `pairs
    {
      && 0 < numBuckets && b < numBuckets && b < |index| && index[b].next >= 0
      && SlotOf(Sp(), index[b]) in at && at[SlotOf(Sp(), index[b])] == b
      && SlotOf(Sp(), index[b]) < |pairs| && pairs[SlotOf(Sp(), index[b])].key == key
    }

    lemma Facts(keys: seq<K>)
      requires Linked(keys)
      ensures Forest(Sp(), index, keys, at, chains) && Sp().n == numBuckets && Sp().hash == hash
      ensures GoodSize(numBuckets) && 2 <= numBuckets <= MAX_BUCKETS && |index| == numBuckets + 2 && |chains| == numBuckets
      ensures index[numBuckets].next >= 0 && index[numBuckets + 1].next >= 0
      ensures forall s | s in at :: s < |pairs| && s < |keys| && keys[s] == pairs[s].key
    {
      ForestFacts(Sp(), index, keys, at, chains);
    }

    // ----- finding an empty bucket

    /** Looks just after `from`, then at a few buckets further on, then from `_last` on and half the table away from it. */
    method FindEmptyBucket(from: nat, csize: nat, ghost keys: seq<K>) returns (b: nat)
      requires Linked(keys) && last <= numBuckets && from < numBuckets
      requires exists e: nat :: e < numBuckets && e < |index| && index[e].next < 0
      modifies `last
      ensures b < numBuckets && b < |index| && index[b].next < 0 && last <= numBuckets
    {
      hide *;
      Facts(keys);
      ghost var e: nat :| e < numBuckets && index[e].next < 0;
      b := from + 1;
      if index[b].next < 0 { return; }
      b := b + 1;
      if index[b].next < 0 { return; }
      var offset: nat, step: nat := 1 + csize, 3;
      while step < 6
        decreases 6 - step
      {
        b := Low(from + offset, numBuckets);
        if index[b].next < 0 { return; }
        b := b + 1;
        if index[b].next < 0 { return; }
        offset, step := offset + step, step + 1;
      }
      ghost var target := Target(e, numBuckets);
      TargetIs(e, numBuckets);
      while true
        invariant last <= numBuckets
        decreases if last < target then target - last else numBuckets + target - last
      {
        LowOfLast(last, numBuckets);
        last := Low(last, numBuckets) + 1;
        if index[last].next < 0 { return last; }
        var medium := Low(numBuckets / 2 + last, numBuckets);
        if index[medium].next < 0 { return medium; }
        NotTarget(index, e, last, numBuckets);
      }
    }

    // ----- walking chains

    method FindPrevBucket(main: nat, bucket: nat, ghost j: nat, ghost keys: seq<K>) returns (prev: nat)
      requires Linked(keys) && main < numBuckets && main < |chains| && 0 < j < |chains[main]| && chains[main][j] == bucket
      ensures prev == chains[main][j - 1]
    {
      hide *;
      Facts(keys);
      ghost var c := chains[main];
      ChainAt(Sp(), index, keys, at, chains, main);
      ghost var i: nat := 0;
      NextIs(Sp(), index, keys, main, c, 0);
      var next := index[main].next;
      if next == bucket {
        OnlyOnce(Sp(), index, keys, main, c, 1, j);
        return main;
      }
      i := 1;
      NoteNot(c, 1, j, bucket);
      while true
        invariant 1 <= i < j && next == c[i]
        decreases j - i
      {
        NextIs(Sp(), index, keys, main, c, i);
        var nbucket := index[next].next;
        if nbucket == bucket {
          OnlyOnce(Sp(), index, keys, main, c, i + 1, j);
          return next;
        }
        NoteNot(c, i + 1, j, bucket);
        next := nbucket;
        i := i + 1;
      }
    }

    /** The end of the chain, from its `i`-th bucket on. */
    method FindLastBucket(bucket: nat, ghost main: nat, ghost i: nat, ghost keys: seq<K>) returns (tail: nat)
      requires Linked(keys) && main < numBuckets && main < |chains| && i < |chains[main]| && chains[main][i] == bucket
      ensures tail == chains[main][|chains[main]| - 1]
    {
      hide *;
      Facts(keys);
      ghost var c := chains[main];
      ChainAt(Sp(), index, keys, at, chains, main);
      NextIs(Sp(), index, keys, main, c, i);
      var next := index[bucket].next;
      if next == bucket { return bucket; }
      ghost var j := i + 1;
      while true
        invariant j < |c| && next == c[j]
        decreases |c| - j
      {
        NextIs(Sp(), index, keys, main, c, j);
        var nbucket := index[next].next;
        if nbucket == next { return next; }
        next := nbucket;
        j := j + 1;
      }
    }

    // ----- making room in a main bucket

    predicate SameBits(b: nat, h: Word64)
      requires b < |index| && numBuckets > 0
      reads `index, `numBuckets
    {
      KeyBits(h) == High(index[b].slot, numBuckets)
    }

    /** `(size_type)(key_hash) & ~_mask`. */
    function KeyBits(h: Word64): nat
      requires numBuckets > 0
      reads `numBuckets
    {
      High(h % TWO_TO_32, numBuckets)
    }

    function MainOf(key: K): (m: nat)
      requires numBuckets > 0
      reads `numBuckets
      ensures m < numBuckets
    {
      Low(hash(key), numBuckets)
    }

    /** Moves the occupant of a bucket that is not its main bucket to an empty one, and relinks its chain. */
    method KickoutBucket(kmain: nat, bucket: nat, ghost keys: seq<K>) returns (b: nat)
      requires Linked(keys) && last <= numBuckets && |at| < numBuckets
      requires bucket < numBuckets && bucket < |index| && index[bucket].next >= 0 && SlotOf(Sp(), index[bucket]) < |keys|
      requires kmain == Main(Sp(), keys[SlotOf(Sp(), index[bucket])]) != bucket
      modifies `index, `last, `at, `chains
      ensures b == bucket && last <= numBuckets && Linked(keys) && |index| == old(|index|) && at.Keys == old(at.Keys)
      ensures b < numBuckets && b < |index| && index[b].next < 0
    {
      hide *;
      Facts(keys);
      ghost var g, from, chain := Sp(), index, chains[kmain];
      var nextBucket: nat := index[bucket].next;
      ghost var e := EmptyExists(g, index, keys, at, chains);
      ghost var j := PlaceOnChain(g, index, keys, at, chains, bucket);
      NextIs(g, index, keys, kmain, chain, j);
      NextIs(g, index, keys, kmain, chain, j - 1);
      DistinctAt(g, index, keys, kmain, chain, j);
      ghost var s := SlotOf(g, index[bucket]);
      var newBucket := FindEmptyBucket(nextBucket, 2, keys);
      var prevBucket := FindPrevBucket(kmain, bucket, j, keys);
      KickOut(g, from, keys, at, chains, kmain, j, newBucket);
      InactiveIs();
      var tail := if nextBucket == bucket then newBucket else nextBucket;
      index := index[newBucket := Cell(tail, index[bucket].slot)][prevBucket := index[prevBucket].(next := newBucket)]
        [bucket := index[bucket].(next := INACTIVE)];
      chain := chain[j := newBucket];
      at, chains := at[s := newBucket], chains[kmain := chain];
      assert at.Keys == old(at.Keys);
      assert Forest(g, index, keys, at, chains);
      LinkedAgain(keys);
      return bucket;
    }

    lemma LinkedAgain(keys: seq<K>)
      requires Forest(Sp(), index, keys, at, chains) && forall s | s in at :: s < |pairs| && s < |keys|
                                                                              && keys[s] == pairs[s].key
      ensures Linked(keys)
    {
    }

    /** Links an empty bucket to the end of a chain. */
    method LinkEmpty(tail: nat, csize: nat, ghost keys: seq<K>, ghost s: nat) returns (b: nat)
      requires Linked(keys) && last <= numBuckets && |at| < numBuckets && s < |keys| && s !in at && s < numBuckets
      requires Main(Sp(), keys[s]) < |chains| && chains[Main(Sp(), keys[s])] != []
      requires tail == chains[Main(Sp(), keys[s])][|chains[Main(Sp(), keys[s])]| - 1]
      modifies `index, `last, `chains
      ensures Allocated(keys, s, b) && last <= numBuckets
    {
      hide *;
      Facts(keys);
      ghost var g, m := Sp(), Main(Sp(), keys[s]);
      ghost var c: seq<nat> := chains[m];
      ghost var e := EmptyExists(g, index, keys, at, chains);
      NextIs2(g, index, keys, at, chains, m, |c| - 1);
      b := FindEmptyBucket(tail, csize, keys);
      StoreTail(g, index, keys, at, chains, s, m, b);
      index := index[tail := index[tail].(next := b)];
      c := c + [b];
      chains := chains[m := c];
      MakeAllocated(keys, s, b);
    }

    lemma MakeAllocated(keys: seq<K>, s: nat, b: nat)
      requires b < numBuckets && b < |index| && index[b].next < 0 && s < |keys|
      requires Forest(Sp(), index[b := Cell(b, Packed(Sp(), s, keys[s]))], keys, at[s := b], chains)
      ensures Allocated(keys, s, b)
    {
    }

    /** Makes an empty main bucket the head of a chain to be. */
    ghost method StartChain(keys: seq<K>, s: nat, b: nat)
      requires Linked(keys) && s < |keys| && s !in at && s < numBuckets && b == Main(Sp(), keys[s])
      requires b < numBuckets && b < |index| && index[b].next < 0
      modifies `chains
      ensures Allocated(keys, s, b)
    {
      hide *;
      Facts(keys);
      StoreHead(Sp(), index, keys, at, chains, s, b);
      chains := chains[b := [b]];
      MakeAllocated(keys, s, b);
    }

    /** A bucket for a key that is not stored yet. */
    method FindUniqueBucket(key: K, ghost keys: seq<K>, ghost s: nat) returns (b: nat)
      requires Linked(keys) && last <= numBuckets && |at| < numBuckets && s < |keys| && keys[s] == key && s !in at
               && s < numBuckets
      modifies `index, `last, `at, `chains
      ensures Allocated(keys, s, b) && last <= numBuckets && at.Keys == old(at.Keys)
    {
      hide *;
      Facts(keys);
      ghost var g := Sp();
      MainIs(key);
      var bucket := MainOf(key);
      if index[bucket].next < 0 {
        StartChain(keys, s, bucket);
        return bucket;
      }
      var next: nat := index[bucket].next;
      FilledFacts(keys, bucket);
      var slot := SlotIn(bucket);
      MainIs(pairs[slot].key);
      var kmain := MainOf(pairs[slot].key);
      if kmain != bucket {
        b := KickoutBucket(kmain, bucket, keys);
        StartChain(keys, s, b);
        return;
      }
      ghost var j := PlaceOnChain(g, index, keys, at, chains, bucket);
      HeadFacts(g, index, keys, at, chains, bucket);
      if next != bucket {
        next := FindLastBucket(next, bucket, 1, keys);
      }
      b := LinkEmpty(next, 2, keys, s);
    }

    /** Compares the hash bits, and the keys only when they agree. */
    method EqualAt(b: nat, key: K, ghost keys: seq<K>) returns (hit: bool)
      requires Linked(keys) && b < numBuckets && b < |index| && index[b].next >= 0
      ensures SlotIn(b) < |pairs| && (hit <==> pairs[SlotIn(b)].key == key)
      ensures hit ==> Found(key, b)
    {
      hide *;
      Facts(keys);
      FilledFacts(keys, b);
      BitsFacts(keys, b, key);
      hit := false;
      if SameBits(b, hash(key)) {
        hit := key == pairs[SlotIn(b)].key;
      }
    }

    lemma BitsFacts(keys: seq<K>, b: nat, key: K)
      requires Linked(keys) && b < numBuckets && b < |index| && index[b].next >= 0
      ensures numBuckets > 0 && SlotIn(b) < |pairs|
      ensures pairs[SlotIn(b)].key == key ==> SameBits(b, hash(key)) && Found(key, b)
    {
      FilledAt(Sp(), index, keys, at, chains, b);
    }

    /** Looks for the key from the `i`-th bucket of a chain on; without it, the end of the chain and how many buckets it
        has counted. */
    method SearchRest(key: K, from: nat, ghost m: nat, ghost i: nat, ghost keys: seq<K>) returns (found: bool,
        b: nat, csize: nat)
      requires Linked(keys) && m < |chains| && 0 < i < |chains[m]| && from == chains[m][i]
      requires numBuckets > 0 && NoneOf(Sp(), index, keys, chains[m], key, i)
      ensures found ==> Found(key, b)
      ensures !found ==> b == chains[m][|chains[m]| - 1] && csize == |chains[m]| - i + 1
      ensures !found ==> NoneOf(Sp(), index, keys, chains[m], key, |chains[m]|)
    {
      hide *;
      Facts(keys);
      ghost var g := Sp();
      ghost var c: seq<nat> := chains[m];
      ghost var p := i;
      ChainAt(g, index, keys, at, chains, m);
      b := from;
      csize := 1;
      while true
        invariant i <= p < |c| && b == c[p] && NoneOf(g, index, keys, c, key, p) && csize == p - i + 1
        decreases |c| - p
      {
        NextIs(g, index, keys, m, c, p);
        NextIs2(g, index, keys, at, chains, m, p);
        FilledFacts(keys, b);
        var hit := EqualAt(b, key, keys);
        if hit { return true, b, csize; }
        NoneOfMore(g, index, keys, c, key, p);
        csize := csize + 1;
        p := p + 1;
        var next: nat := index[b].next;
        if next == b { return false, b, csize; }
        b := next;
      }
    }

    /** A filled main bucket that does not hold the key lies on the key's chain, as its first bucket, or on another
        chain, and then the key's chain is empty. */
    lemma FirstLook(keys: seq<K>, key: K) returns (m: nat, j: nat)
      requires Linked(keys) && numBuckets > 0 && MainOf(key) < |index| && index[MainOf(key)].next >= 0
      requires SlotIn(MainOf(key)) < |pairs| && pairs[SlotIn(MainOf(key))].key != key
      ensures MainOf(key) < |chains| && m < |chains| && j < |chains[m]| && chains[m][j] == MainOf(key)
      ensures NoneOf(Sp(), index, keys, chains[m], key, j + 1)
      ensures index[MainOf(key)].next == if j + 1 < |chains[m]| then chains[m][j + 1] else MainOf(key)
      ensures j + 1 < |chains[m]| ==> chains[m][j + 1] != MainOf(key)
      ensures SlotIn(MainOf(key)) < |keys| && m == MainOf(pairs[SlotIn(MainOf(key))].key)
      ensures if m == MainOf(key) then j == 0 else chains[MainOf(key)] == []
    {
      hide Forest, Chain, Main, SlotOf, BitsOf;
      Facts(keys);
      var g, b := Sp(), MainOf(key);
      FilledFacts(keys, b);
      MainIs(key);
      j := PlaceOnChain(g, index, keys, at, chains, b);
      m := Main(g, keys[SlotOf(g, index[b])]);
      MainIs(keys[SlotOf(g, index[b])]);
      NextIs(g, index, keys, m, chains[m], j);
      if m == b {
        HeadFacts(g, index, keys, at, chains, b);
        OnlyOnce(g, index, keys, m, chains[m], 0, j);
        NoneOfFirst(g, index, keys, chains[m], key);
      } else {
        NoChain(g, index, keys, at, chains, b);
        NoneOfForeign(g, index, keys, at, chains, m, key);
      }
    }

    /** The bucket that holds the key, or INACTIVE. */
    method FindFilledBucket(key: K) returns (r: int)
      requires Linked(Keys()) && Covers(at, |pairs|)
      ensures r == INACTIVE <==> !HasKey(pairs, key)
      ensures r != INACTIVE ==> r >= 0 && Found(key, r)
    {
      hide *;
      ghost var keys := Keys();
      Facts(keys);
      InactiveIs();
      MainIs(key);
      var bucket := MainOf(key);
      if index[bucket].next < 0 {
        NoChain(Sp(), index, keys, at, chains, bucket);
        AbsentHere(key);
        return INACTIVE;
      }
      var hit := EqualAt(bucket, key, keys);
      if hit {
        FoundHere(key, bucket);
        return bucket;
      }
      var next: nat := index[bucket].next;
      ghost var m, j := FirstLook(keys, key);
      if next == bucket {
        AbsentHere(key);
        return INACTIVE;
      }
      var found, b, csize := SearchRest(key, next, m, j + 1, keys);
      if found {
        FoundHere(key, b);
        return b;
      }
      AbsentHere(key);
      return INACTIVE;
    }

    /** The slot of the key's pair, or the number of pairs. */
    method FindFilledSlot(key: K) returns (slot: nat)
      requires Linked(Keys()) && Covers(at, |pairs|)
      ensures slot <= |pairs| && (slot == |pairs| <==> !HasKey(pairs, key))
      ensures slot < |pairs| ==> pairs[slot].key == key
    {
      hide *;
      ghost var keys := Keys();
      Facts(keys);
      MainIs(key);
      var bucket := MainOf(key);
      if index[bucket].next < 0 {
        NoChain(Sp(), index, keys, at, chains, bucket);
        AbsentHere(key);
        return |pairs|;
      }
      var hit := EqualAt(bucket, key, keys);
      if hit {
        FoundHere(key, bucket);
        return SlotIn(bucket);
      }
      var next: nat := index[bucket].next;
      ghost var m, j := FirstLook(keys, key);
      if next == bucket {
        AbsentHere(key);
        return |pairs|;
      }
      var found, b, csize := SearchRest(key, next, m, j + 1, keys);
      if found {
        FoundHere(key, b);
        return SlotIn(b);
      }
      AbsentHere(key);
      return |pairs|;
    }

    lemma FoundHere(key: K, b: nat)
      requires Found(key, b)
      ensures HasKey(pairs, key)
      ensures b < |index| && numBuckets > 0 && SlotIn(b) < |pairs| && pairs[SlotIn(b)].key == key
    {
      HasKeyAt(pairs, key, SlotOf(Sp(), index[b]));
    }

    lemma AbsentHere(key: K)
      requires Linked(Keys()) && Covers(at, |pairs|)
      requires numBuckets > 0 && MainOf(key) < |chains|
      requires chains[MainOf(key)] == [] || NoneOf(Sp(), index, Keys(), chains[MainOf(key)], key, |chains[MainOf(key)]|)
      ensures !HasKey(pairs, key)
    {
      NoneMeansAbsent(Sp(), index, Keys(), at, chains, key);
      forall i | 0 <= i < |pairs|
        ensures pairs[i].key != key
      {
        assert i in at;
        assert Keys()[i] == pairs[i].key;
      }
    }

    /** The bucket of the key, or an empty bucket made ready for it: its main bucket when that is empty or can be freed
        of a foreign occupant, otherwise a bucket linked to the end of its chain. */
    method FindOrAllocate(key: K, ghost keys: seq<K>) returns (b: nat)
      requires Linked(Keys()) && Covers(at, |pairs|) && |pairs| < numBuckets && last <= numBuckets && keys == Keys() + [key]
      modifies `index, `last, `at, `chains
      ensures last <= numBuckets && b < |index|
      ensures index[b].next >= 0 ==> Found(key, b) && index == old(index) && at == old(at) && chains == old(chains)
      ensures index[b].next < 0 ==> Allocated(keys, |pairs|, b) && Covers(at, |pairs|) && !HasKey(pairs, key)
    {
      hide *;
      ghost var g, s := Sp(), |pairs|;
      CoversSize(at, s);
      SlotsBelow(s);
      MoreKeys(keys, key);
      Facts(Keys());
      Facts(keys);
      MainIs(key);
      var bucket := MainOf(key);
      if index[bucket].next < 0 {
        NoChain(g, index, Keys(), at, chains, bucket);
        AbsentHere(key);
        StartChain(keys, s, bucket);
        AllocatedFacts(keys, s, bucket);
        return bucket;
      }
      var next: nat := index[bucket].next;
      FilledFacts(keys, bucket);
      var hit := EqualAt(bucket, key, keys);
      if hit { return bucket; }
      var slot := SlotIn(bucket);
      MainIs(pairs[slot].key);
      ghost var m, j := FirstLook(keys, key);
      var kmain := MainOf(pairs[slot].key);
      if kmain != bucket {
        AbsentHere(key);
        ghost var was := at;
        b := KickoutBucket(kmain, bucket, keys);
        StillCovers(was);
        StartChain(keys, s, b);
        AllocatedFacts(keys, s, b);
        return;
      }
      if next == bucket {
        SameNone(keys, key);
        b := LinkEmpty(next, 1, keys, s);
        AllocatedFacts(keys, s, b);
        return;
      }
      var found, tail, csize := SearchRest(key, next, bucket, 1, keys);
      if found {
        FoundFacts(key, tail);
        return tail;
      }
      SameNone(keys, key);
      b := LinkEmpty(tail, csize, keys, s);
      AllocatedFacts(keys, s, b);
    }

    lemma SlotsBelow(s: nat)
      requires Covers(at, s)
      ensures s !in at
    {
    }

    lemma MoreKeys(keys: seq<K>, key: K)
      requires Linked(Keys()) && keys == Keys() + [key]
      ensures Linked(keys) && |keys| == |pairs| + 1 && keys[|pairs|] == key
    {
      SameStoredKeys(Sp(), index, Keys(), keys, at, chains);
    }

    lemma StillCovers(was: map<nat, nat>)
      requires Covers(was, |pairs|) && at.Keys == was.Keys
      ensures Covers(at, |pairs|)
    {
      forall i: nat
        ensures i in at <==> i < |pairs|
      {
        assert i in at <==> i in was.Keys;
      }
    }

    lemma AllocatedFacts(keys: seq<K>, s: nat, b: nat)
      requires Allocated(keys, s, b)
      ensures b < numBuckets && b < |index| && index[b].next < 0 && s < |keys|
      ensures Forest(Sp(), index[b := Cell(b, Packed(Sp(), s, keys[s]))], keys, at[s := b], chains)
    {
    }

    lemma FoundFacts(key: K, b: nat)
      requires Found(key, b)
      ensures b < numBuckets && b < |index| && index[b].next >= 0
    {
    }

    /** The search on the chain of the key, with the keys stored so far. */
    lemma SameNone(keys: seq<K>, key: K)
      requires Linked(Keys()) && Covers(at, |pairs|) && Linked(keys) && keys == Keys() + [key]
      requires numBuckets > 0 && MainOf(key) < |chains|
      requires NoneOf(Sp(), index, keys, chains[MainOf(key)], key, |chains[MainOf(key)]|)
      ensures !HasKey(pairs, key)
    {
      NoneMeansAbsent(Sp(), index, keys, at, chains, key);
      forall i | 0 <= i < |pairs|
        ensures pairs[i].key != key
      {
        assert i in at;
      }
    }

    /** Constructs the pair in the allocated bucket. */
    method EmhNew(key: K, value: V, bucket: nat, ghost keys: seq<K>)
      requires keys == Keys() + [key] && Allocated(keys, |pairs|, bucket) && Covers(at, |pairs|) && |pairs| < numBuckets
      requires DistinctKeys(pairs) && !HasKey(pairs, key) && last <= numBuckets && LOAD_ONE <= mlf && 4 <= numBuckets
      requires |pairs| < PairRoom(numBuckets, mlf)
      modifies `pairs, `etail, `index, `at
      ensures Valid() && pairs == old(pairs) + [Entry(key, value)]
      ensures etail == bucket && bucket < |index| && numBuckets > 0 && SlotIn(bucket) == |pairs| - 1
    {
      hide Forest, HasKey, DistinctKeys, Main, Low, High, KeysOf, PairRoom;
      AppendKeepsMap(pairs, Entry(key, value));
      ghost var s, was := |pairs|, pairs;
      index := index[bucket := Cell(bucket, |pairs| + KeyBits(hash(key)))];
      etail := bucket;
      pairs := Construct(pairs, PairRoom(numBuckets, mlf), Entry(key, value));
      at := at[s := bucket];
      KeysGrow(was, Entry(key, value));
      NewSlot(bucket, key, s);
    }

    lemma NewSlot(bucket: nat, key: K, s: nat)
      requires s < numBuckets && bucket < |index| && index[bucket] == Cell(bucket, s + KeyBits(hash(key)))
      requires Forest(Sp(), index, Keys(), at, chains)
      ensures SlotIn(bucket) == s
    {
      PackedIs(Sp(), s, key, bucket);
    }

    // ----- insertion

    /** Adds the pair unless the key is there; the slot of the key's pair. */
    method DoInsert(key: K, value: V) returns (slot: nat, inserted: bool)
      requires Valid() && |pairs| < numBuckets && |pairs| < PairRoom(numBuckets, mlf)
      modifies this
      ensures Valid() && slot < |pairs| && pairs[slot].key == key
      ensures inserted <==> !HasKey(old(pairs), key)
      ensures inserted ==> slot == old(|pairs|)
      ensures pairs == if inserted then old(pairs) + [Entry(key, value)] else old(pairs)
      ensures numBuckets == old(numBuckets) && mlf == old(mlf)
    {
      hide Forest, HasKey, DistinctKeys, Main, HashBits, Low, High, KeysOf, Covers, Allocated, PairRoom;
      ghost var keys := Keys() + [key];
      var bucket := FindOrAllocate(key, keys);
      if index[bucket].next < 0 {
        EmhNew(key, value, bucket, keys);
        slot, inserted := |pairs| - 1, true;
      } else {
        FoundHere(key, bucket);
        slot, inserted := SlotIn(bucket), false;
      }
    }

    /** Overwrites the value when the key is there, adds the pair otherwise. */
    method DoAssign(key: K, value: V) returns (slot: nat, inserted: bool)
      requires Valid() && MayGrow()
      modifies this
      ensures Valid() && slot < |pairs| && pairs[slot] == Entry(key, value) && mlf == old(mlf)
      ensures inserted <==> !HasKey(old(pairs), key)
      ensures AsMap(pairs) == old(AsMap(pairs))[key := value]
      ensures pairs == if inserted then old(pairs) + [Entry(key, value)] else old(pairs)[slot := Entry(key, value)]
      ensures numBuckets == old(SizeFor(|pairs|))
    {
      hide *;
      ValidFacts();
      var grown := CheckExpandNeed();
      ghost var before := pairs;
      slot, inserted := DoInsert(key, value);
      if inserted {
        AppendKeepsMap(before, Entry(key, value));
      } else {
        AssignKeepsMap(pairs, slot, value);
        ValidFacts();
        pairs := pairs[slot := pairs[slot].(value := value)];
        AssignedIsValid(before, slot, value);
      }
    }

    lemma ValidFacts()
      requires Valid()
      ensures Linked(Keys()) && Covers(at, |pairs|) && |pairs| <= numBuckets && DistinctKeys(pairs)
      ensures Tail() && last <= numBuckets && LOAD_ONE <= mlf && 4 <= numBuckets && |pairs| <= PairRoom(numBuckets, mlf)
      ensures Keys() == KeysOf(pairs) && Forest(Sp(), index, KeysOf(pairs), at, chains)
      ensures etail == INACTIVE || (pairs != [] && |pairs| - 1 in at && at[|pairs| - 1] == etail)
    {
    }

    lemma AssignedIsValid(before: seq<Entry<K, V>>, slot: nat, value: V)
      requires slot < |before| && pairs == before[slot := before[slot].(value := value)]
      requires Forest(Sp(), index, KeysOf(before), at, chains) && Covers(at, |before|) && |before| <= numBuckets
               && DistinctKeys(pairs)
      requires etail == INACTIVE || (before != [] && |before| - 1 in at && at[|before| - 1] == etail)
      requires last <= numBuckets && LOAD_ONE <= mlf && 4 <= numBuckets && |pairs| <= PairRoom(numBuckets, mlf)
      ensures Valid()
    {
      SameKeysOf(before, slot, value);
    }

    /** Adds the pair unless the key is there. */
    method Insert(key: K, value: V) returns (slot: nat, inserted: bool)
      requires Valid() && MayGrow()
      modifies this
      ensures Valid() && slot < |pairs| && pairs[slot].key == key && mlf == old(mlf)
      ensures inserted <==> !HasKey(old(pairs), key)
      ensures inserted ==> slot == old(|pairs|)
      ensures pairs == if inserted then old(pairs) + [Entry(key, value)] else old(pairs)
      ensures AsMap(pairs) == if inserted then old(AsMap(pairs))[key := value] else old(AsMap(pairs))
      ensures numBuckets == old(SizeFor(|pairs|))
    {
      hide Forest, HasKey, DistinctKeys, Main, HashBits, Low, High, KeysOf, Covers, Allocated, AsMap, PairRoom, Required;
      var grown := CheckExpandNeed();
      ghost var before := pairs;
      slot, inserted := DoInsert(key, value);
      if inserted {
        AppendKeepsMap(before, Entry(key, value));
      }
    }

    /** Adds a pair whose key is known to be absent. */
    method InsertUnique(key: K, value: V) returns (bucket: nat)
      requires Valid() && MayGrow() && !HasKey(pairs, key)
      modifies this
      ensures Valid() && pairs == old(pairs) + [Entry(key, value)]
      ensures AsMap(pairs) == old(AsMap(pairs))[key := value] && mlf == old(mlf)
      ensures bucket < |index| && numBuckets > 0 && SlotIn(bucket) == |pairs| - 1
      ensures numBuckets == old(SizeFor(|pairs|))
    {
      hide Forest, HasKey, DistinctKeys, Main, HashBits, Low, High, KeysOf, Covers, Allocated, AsMap, PairRoom, Required;
      hide BucketsFor;
      var grown := CheckExpandNeed();
      ghost var s, keys, was := |pairs|, Keys() + [key], at;
      MoreKeys(keys, key);
      CoversSize(at, s);
      SlotsBelow(s);
      AppendKeepsMap(pairs, Entry(key, value));
      bucket := FindUniqueBucket(key, keys, s);
      StillCovers(was);
      EmhNew(key, value, bucket, keys);
    }

    // ----- erasure

    /** Takes a bucket's pair off its chain; the bucket that becomes free, which is yet to be cleared. */
    method EraseBucket(bucket: nat, mainBucket: nat) returns (e: nat)
      requires Linked(Keys()) && bucket < numBuckets && bucket < |index| && index[bucket].next >= 0
      requires SlotIn(bucket) < |pairs| && mainBucket == MainOf(pairs[SlotIn(bucket)].key)
      modifies `index, `at, `chains
      ensures e < numBuckets && |index| == old(|index|) && e < |index|
      ensures Forest(Sp(), index[e := CLEARED], Keys(), at, chains)
      ensures at.Keys == old(at.Keys) - {old(SlotIn(bucket))}
      ensures forall s | s in at :: s in old(at) && (at[s] == old(at)[s] || old(at)[s] == e)
    {
      hide *;
      ghost var keys := Keys();
      Facts(keys);
      FilledFacts(keys, bucket);
      MainIs(pairs[SlotIn(bucket)].key);
      ghost var g, s, from := Sp(), SlotIn(bucket), index;
      ghost var j := PlaceOnChain(g, index, keys, at, chains, bucket);
      ghost var c: seq<nat> := chains[mainBucket];
      NextIs(g, index, keys, mainBucket, c, j);
      var next: nat := index[bucket].next;
      if bucket == mainBucket {
        HeadFacts(g, index, keys, at, chains, bucket);
        if mainBucket != next {
          NextIs(g, index, keys, mainBucket, c, 1);
          FilledFacts(keys, next);
          UnlinkHead(g, index, keys, at, chains, mainBucket);
          var nbucket := index[next].next;
          index := index[mainBucket := Cell(if nbucket == next then mainBucket else nbucket, index[next].slot)];
          at := (at - {s})[SlotOf(g, from[next]) := mainBucket];
          chains := chains[mainBucket := Without(c, 1)];
        } else {
          UnlinkOnly(g, index, keys, at, chains, mainBucket);
          at := at - {s};
          chains := chains[mainBucket := []];
        }
        return next;
      }
      var prev := FindPrevBucket(mainBucket, bucket, j, keys);
      NextIs(g, index, keys, mainBucket, c, j - 1);
      Unlink(g, index, keys, at, chains, mainBucket, j);
      index := index[prev := index[prev].(next := if bucket == next then prev else next)];
      at := at - {s};
      chains := chains[mainBucket := Without(c, j)];
      return bucket;
    }

    /** The bucket of a slot, searched from its key's main bucket on. `clean` is the index without what erasing has left
        in a bucket that is off its chain. */
    method FindSlotBucket(slot: nat, ghost clean: seq<Cell>) returns (b: nat, mainBucket: nat)
      requires Forest(Sp(), clean, Keys(), at, chains) && slot in at && slot < |pairs| && |index| == |clean|
      requires forall x: nat | x < |clean| && clean[x].next >= 0 :: index[x] == clean[x]
      ensures b == at[slot] && b < numBuckets && b < |index| && index[b] == clean[b] && clean[b].next >= 0
      ensures 0 < numBuckets && SlotIn(b) == slot && mainBucket == MainOf(pairs[slot].key)
    {
      hide *;
      ghost var keys, g := Keys(), Sp();
      ForestFacts(g, clean, keys, at, chains);
      SpaceIs();
      KeyAt(slot);
      SlotAtIs(g, clean, keys, at, chains, slot);
      HoldsAt(g, clean, keys, at, chains, slot);
      HoldsFacts(g, clean, keys, chains, slot, at[slot]);
      MainIs(pairs[slot].key);
      mainBucket := MainOf(pairs[slot].key);
      ghost var c: seq<nat> := chains[mainBucket];
      ghost var p := PlaceOnChain(g, clean, keys, at, chains, at[slot]);
      NextIs(g, clean, keys, mainBucket, c, 0);
      NextIs2(g, clean, keys, at, chains, mainBucket, 0);
      SlotsOnChain(g, clean, keys, at, chains, mainBucket, slot, 0, p);
      SlotInIs(mainBucket);
      if slot == SlotIn(mainBucket) { return mainBucket, mainBucket; }
      b := index[mainBucket].next;
      ghost var i: nat := 1;
      while true
        invariant 1 <= i <= p && b == c[i]
        decreases p - i
      {
        NextIs(g, clean, keys, mainBucket, c, i);
        NextIs2(g, clean, keys, at, chains, mainBucket, i);
        SlotsOnChain(g, clean, keys, at, chains, mainBucket, slot, i, p);
        SlotInIs(b);
        if slot == SlotIn(b) { return; }
        b := index[b].next;
        i := i + 1;
      }
    }

    lemma SpaceIs()
      ensures Sp().n == numBuckets && Sp().hash == hash
    {
    }

    lemma SlotInIs(b: nat)
      requires b < |index| && numBuckets > 0
      ensures SlotIn(b) == SlotOf(Sp(), index[b])
    {
    }

    /** Moves the last pair into the hole at `slot`. Its bucket is the cached tail when there is one and erasing has not
        freed it; otherwise it is searched for. */
    method MoveLast(slot: nat, ebucket: nat, ghost keys: seq<K>)
      requires slot + 1 < |pairs| <= numBuckets && ebucket < |index|
      requires forall x: nat :: x in at <==> x < |pairs| && x != slot
      requires etail == INACTIVE || ebucket == etail || at[|pairs| - 1] == etail
      requires keys == Keys() && Forest(Sp(), index[ebucket := CLEARED], keys, at, chains)
      modifies `index, `at, `pairs
      ensures pairs == old(pairs)[slot := old(pairs)[old(|pairs|) - 1]] && Covers(at, old(|pairs|) - 1)
      ensures |index| == old(|index|) && Forest(Sp(), index[ebucket := CLEARED], SwapRemove(keys, slot), at, chains)
    {
      hide *;
      ghost var g, clean := Sp(), index[ebucket := CLEARED];
      var lastSlot := |pairs| - 1;
      var lastBucket: nat;
      KeyAt(lastSlot);
      ClearedIs();
      SpaceIs();
      BucketIsNot(g, clean, keys, at, chains, lastSlot, ebucket);
      if etail == INACTIVE || ebucket == etail {
        var main;
        lastBucket, main := FindSlotBucket(lastSlot, clean);
      } else {
        lastBucket := etail;
      }
      KeysCount();
      Renumber(g, clean, keys, at, chains, slot);
      HighIs(lastBucket);
      pairs := pairs[slot := pairs[lastSlot]];
      index := index[lastBucket := index[lastBucket].(slot := slot + High(index[lastBucket].slot, numBuckets))];
      at := (at - {lastSlot})[slot := lastBucket];
      assert index[ebucket := CLEARED]
          == clean[lastBucket := clean[lastBucket].(slot := slot + BitsOf(g, clean[lastBucket]))];
    }

    lemma KeysCount()
      ensures |Keys()| == |pairs|
    {
    }

    /** Erases the pair of a bucket: unlinks the bucket and moves the last pair into the hole. */
    method EraseSlot(sbucket: nat, mainBucket: nat)
      requires Valid() && sbucket < numBuckets && sbucket < |index| && index[sbucket].next >= 0
      requires SlotIn(sbucket) < |pairs| && mainBucket == MainOf(pairs[SlotIn(sbucket)].key)
      modifies `index, `at, `chains, `pairs, `etail
      ensures Valid() && pairs == SwapRemove(old(pairs), old(SlotIn(sbucket)))
      ensures AsMap(pairs) == old(AsMap(pairs)) - {old(pairs)[old(SlotIn(sbucket))].key}
    {
      hide *;
      ValidFacts();
      FilledFacts(Keys(), sbucket);
      ghost var keys, before, from := Keys(), pairs, at;
      var slot := SlotIn(sbucket);
      SwapRemoveKeepsMap(pairs, slot);
      KeysSwapRemove(pairs, slot);
      ClearedIs();
      var ebucket := EraseBucket(sbucket, mainBucket);
      var lastSlot := |pairs| - 1;
      CoversLess(from, at, |before|, slot);
      if slot != lastSlot {
        MoveLast(slot, ebucket, keys);
      } else {
        KeysCount();
        DropLast(Sp(), index[ebucket := CLEARED], keys, at, chains);
      }
      pairs := pairs[..lastSlot];
      etail := INACTIVE;
      index := index[ebucket := Cell(INACTIVE, 0)];
      SwapRemoveIs(before, slot);
      ErasedIsValid(SwapRemove(keys, slot));
    }

    lemma HighIs(b: nat)
      requires b < |index| && numBuckets > 0
      ensures High(index[b].slot, numBuckets) == BitsOf(Sp(), index[b])
    {
    }

    lemma ErasedIsValid(keys: seq<K>)
      requires Forest(Sp(), index, keys, at, chains) && keys == KeysOf(pairs) && Covers(at, |pairs|) && DistinctKeys(pairs)
      requires |pairs| <= numBuckets && etail == INACTIVE && last <= numBuckets && LOAD_ONE <= mlf && 4 <= numBuckets
      requires |pairs| <= PairRoom(numBuckets, mlf)
      ensures Valid()
    {
    }

    /** Erases a key; 1 when it was there, 0 otherwise. */
    method EraseKey(key: K) returns (count: nat)
      requires Valid()
      modifies `index, `at, `chains, `pairs, `etail
      ensures Valid() && count == if HasKey(old(pairs), key) then 1 else 0
      ensures AsMap(pairs) == old(AsMap(pairs)) - {key}
      ensures count == 0 ==> pairs == old(pairs)
      ensures count == 1 ==> exists i: nat :: i < old(|pairs|) && old(pairs)[i].key == key
                                              && pairs == SwapRemove(old(pairs), i)
    {
      hide *;
      ValidFacts();
      AsMapKeys(pairs, key);
      var sbucket := FindFilledBucket(key);
      if sbucket == INACTIVE {
        assert AsMap(pairs) - {key} == AsMap(pairs);
        return 0;
      }
      FoundFacts(key, sbucket);
      FoundHere(key, sbucket);
      EraseSlot(sbucket, MainOf(key));
      return 1;
    }

    /** `erase(iterator)`: erases the pair in a slot. */
    method EraseAt(slot: nat)
      requires Valid() && slot < |pairs|
      modifies `index, `at, `chains, `pairs, `etail
      ensures Valid() && pairs == SwapRemove(old(pairs), slot)
      ensures AsMap(pairs) == old(AsMap(pairs)) - {old(pairs)[slot].key}
    {
      hide *;
      ValidFacts();
      Facts(Keys());
      CoversAt(at, |pairs|, slot);
      var b, main := FindSlotBucket(slot, index);
      EraseSlot(b, main);
    }

    /** Erases every pair that satisfies the predicate; the slot just filled from the end is looked at again. */
    method EraseIf(pred: (K, V) -> bool) returns (count: nat)
      requires Valid()
      modifies `index, `at, `chains, `pairs, `etail
      ensures Valid() && |pairs| == old(|pairs|) - count
      ensures forall i | 0 <= i < |pairs| :: !pred(pairs[i].key, pairs[i].value)
      ensures AsMap(pairs) == map k | k in old(AsMap(pairs)) && !pred(k, old(AsMap(pairs))[k]) :: old(AsMap(pairs))[k]
      ensures pairs == Sieved(old(pairs), pred, 0)
    {
      hide *;
      ValidFacts();
      ghost var was := AsMap(pairs);
      var oldSize := |pairs|;
      var it: nat := 0;
      SievingStarts(was, pred);
      while it != |pairs|
        invariant Valid() && DistinctKeys(pairs) && it <= |pairs| <= oldSize
        invariant forall i | 0 <= i < it :: !pred(pairs[i].key, pairs[i].value)
        invariant Sieving(was, AsMap(pairs), pred) && Sieved(pairs, pred, it) == Sieved(old(pairs), pred, 0)
        decreases |pairs| - it
      {
        SievedStep(pairs, pred, it);
        if pred(pairs[it].key, pairs[it].value) {
          SievingStep(was, pairs, pred, it);
          SwapRemoveAt(pairs, it);
          EraseAt(it);
          ValidFacts();
        } else {
          it := it + 1;
        }
      }
      SievingEnds(was, pairs, pred);
      SievedStep(pairs, pred, it);
      count := oldSize - |pairs|;
    }

    // ----- values in place, and starting over

    /** `try_get`. */
    method TryGet(key: K) returns (value: Option<V>)
      requires Valid()
      ensures value == if key in AsMap(pairs) then Some(AsMap(pairs)[key]) else None
    {
      hide *;
      ValidFacts();
      AsMapKeys(pairs, key);
      var slot := FindFilledSlot(key);
      if slot != |pairs| {
        return Some(pairs[slot].value);
      }
      return None;
    }

    /** `try_set`: overwrites the value of a key that is there. */
    method TrySet(key: K, value: V) returns (found: bool)
      requires Valid()
      modifies `pairs
      ensures Valid() && (found <==> key in old(AsMap(pairs)))
      ensures AsMap(pairs) == if found then old(AsMap(pairs))[key := value] else old(AsMap(pairs))
    {
      hide *;
      ValidFacts();
      AsMapKeys(pairs, key);
      var slot := FindFilledSlot(key);
      if slot == |pairs| { return false; }
      ghost var before := pairs;
      AssignKeepsMap(pairs, slot, value);
      pairs := pairs[slot := pairs[slot].(value := value)];
      AssignedIsValid(before, slot, value);
      return true;
    }

    /** Removes every pair and keeps the number of buckets. */
    method Clear()
      requires Valid()
      modifies `index, `at, `chains, `pairs, `etail, `last
      ensures Valid() && pairs == []
    {
      hide *;
      ValidFacts();
      if pairs != [] {
        EmptyBuckets();
      }
      last := 0;
      etail := INACTIVE;
      pairs := [];
      ClearedIsValid();
    }

    method EmptyBuckets()
      requires Valid()
      modifies `index, `at, `chains
      ensures forall keys: seq<K> {:trigger Forest(Sp(), index, keys, at, chains)} :: Forest(Sp(), index, keys, at, chains)
      ensures Covers(at, 0)
    {
      hide GoodSize, Low, KeysOf;
      Facts(Keys());
      index := seq(numBuckets, i => Cell(INACTIVE, 0xFFFF_FFFF)) + index[numBuckets..];
      at := map[];
      chains := seq(numBuckets, i => []);
      forall keys: seq<K>
        ensures Forest(Sp(), index, keys, at, chains)
      {
        forall m: nat | m < numBuckets
          ensures Chain(Sp(), index, keys, m, chains[m])
        {
          NoLinks(Sp(), index, keys, m);
        }
      }
    }

    lemma ClearedIsValid()
      requires pairs == [] && Forest(Sp(), index, [], at, chains) && Covers(at, 0) && etail == INACTIVE && last == 0
               && LOAD_ONE <= mlf && 4 <= numBuckets
      ensures Valid()
    {
    }

    /** Sets the load factor and rehashes into as many buckets: the new buffer holds the pairs if and only if there are no
        more of them than the new load factor makes room for. */
    method SetMaxLoadFactor(f: real) returns (inside: bool)
      requires Valid() && numBuckets < MAX_BUCKETS
      modifies this
      ensures mlf == if MIN_LOAD_FACTOR < f < 0.992 then Multiplier(f) else old(mlf)
      ensures inside <==> (MIN_LOAD_FACTOR < f < 0.992 ==> old(|pairs|) <= PairRoom(old(numBuckets), Multiplier(f)))
      ensures inside ==> Valid() && pairs == old(pairs) && numBuckets == old(numBuckets)
    {
      hide Forest, DistinctKeys, Covers, KeysOf, PairRoom, BucketsFor, Required;
      inside := true;
      if f < 0.992 && f > MIN_LOAD_FACTOR {
        Facts(Keys());
        SameBuckets(4, numBuckets, |pairs|);
        LoadAbove(f);
        mlf := (LOAD_ONE as real / f).Floor;
        inside := Rehash(numBuckets);
      }
    }

    /** Rehashes a thinly filled table into the buckets its pairs need: the new buffer holds the pairs if and only if the
        load factor makes room for them there. */
    method ShrinkToFit(minFactor: real) returns (inside: bool)
      requires Valid() && |pairs| + 1 < MAX_BUCKETS
      modifies this
      ensures mlf == old(mlf)
      ensures var thin := old(|pairs| as real / numBuckets as real < minFactor && numBuckets > 10);
              var n := BucketsFor(4, old(|pairs|), old(|pairs|) + 1);
              && (inside <==> (thin ==> old(|pairs|) <= PairRoom(n, mlf)))
              && (inside ==> Valid() && pairs == old(pairs) && numBuckets == if thin then n else old(numBuckets))
    {
      hide Forest, DistinctKeys, Covers, KeysOf, PairRoom, BucketsFor, Required;
      inside := true;
      if |pairs| as real / numBuckets as real < minFactor && numBuckets > 10 {
        inside := Rehash(|pairs| + 1);
      }
    }

    constructor (hash: K -> Word64, bucket: nat, f: real)
      requires bucket < MAX_BUCKETS
      ensures Valid() && pairs == [] && this.hash == hash && numBuckets == BucketsFor(4, 0, bucket)
      ensures mlf == Multiplier(if MIN_LOAD_FACTOR < f < 0.992 then f else DEFAULT_LOAD_FACTOR)
    {
      var load := if MIN_LOAD_FACTOR < f < 0.992 then f else DEFAULT_LOAD_FACTOR;
      assert (LOAD_ONE as real / load).Floor >= LOAD_ONE by { LoadAbove(load); }
      this.hash := hash;
      index, pairs, numBuckets, last, etail := [], [], 0, 0, INACTIVE;
      mlf := (LOAD_ONE as real / load).Floor;
      at, chains := map[], [];
      new;
      var n := BucketCount(4, 0, bucket);
      Rebuild(n);
    }

    // ----- growth

    /** Leaves a bucket and a place in the buffer for one pair more. */
    method CheckExpandNeed() returns (grown: bool)
      requires Valid() && MayGrow()
      modifies this
      ensures Valid() && |pairs| < numBuckets && pairs == old(pairs) && mlf == old(mlf)
      ensures |pairs| < PairRoom(numBuckets, mlf)
      ensures grown <==> Required(old(|pairs|), mlf) >= old(numBuckets) - 1
      ensures numBuckets == old(SizeFor(|pairs|))
    {
      hide Forest, HasKey, DistinctKeys, Covers, Required, PairRoom, BucketsFor;
      grown := Reserve(|pairs|);
    }

    /** The buckets after making room for so many pairs. */
    function SizeFor(n: nat): nat
      reads `numBuckets, `pairs, `mlf
    {
      if Required(n, mlf) < numBuckets - 1 then numBuckets else BucketsFor(4, |pairs|, Required(n, mlf) + 2)
    }

    lemma GrowsEnough(n: nat)
      requires Stored()
      ensures Required(n, mlf) >= numBuckets - 1 ==> Required(n, mlf) + 2 > |pairs|
    {
    }

    /** Makes room for so many pairs. */
    method Reserve(n: nat) returns (grown: bool)
      requires Valid() && Required(n, mlf) + 2 < MAX_BUCKETS
      modifies this
      ensures Valid() && pairs == old(pairs) && mlf == old(mlf)
      ensures n < numBuckets && n < PairRoom(numBuckets, mlf)
      ensures numBuckets == old(SizeFor(n))
      ensures grown <==> Required(n, mlf) >= old(numBuckets) - 1
    {
      hide Forest, HasKey, DistinctKeys, Covers, Required, PairRoom, BucketsFor, KeysOf;
      var required := Required(n, mlf);
      RequiredIsEnough(n, mlf);
      if required < numBuckets - 1 {
        RoomForPairs(n, numBuckets, mlf);
        return false;
      }
      GrowsEnough(n);
      var inside := Rehash(required + 2);
      RoomForPairs(n, numBuckets, mlf);
      return true;
    }

    /** Rebuilds the index and the buffer of pairs for at least so many buckets, unless there are more pairs than that.
        The pairs are copied into the new buffer without a look at its size: `inside` tells whether they all fit, and
        where they do not nothing is promised. A table that grows always has the room. */
    method Rehash(required: nat) returns (inside: bool)
      requires Stored() && required < MAX_BUCKETS
      modifies this
      ensures mlf == old(mlf)
      ensures inside <==>
              (required >= old(|pairs|) ==> old(|pairs|) <= PairRoom(BucketsFor(4, old(|pairs|), required), mlf))
      ensures inside ==> Stored() && pairs == old(pairs) && (required >= |pairs| || old(Valid()) ==> Valid())
      ensures inside ==> numBuckets == if required < |pairs| then old(numBuckets) else BucketsFor(4, |pairs|, required)
      ensures inside && required >= |pairs| ==> etail == INACTIVE
      ensures old(Valid()) && required >= old(numBuckets) ==> inside
      ensures Required(old(|pairs|), mlf) < required ==> inside
    {
      hide Forest, HasKey, DistinctKeys, Covers, Low, High, HashBits, KeysOf, PairRoom, BucketsFor, Required;
      if required < |pairs| { return true; }
      var n := BucketCount(4, |pairs|, required);
      if required >= numBuckets {
        MoreRoom(numBuckets, n, mlf);
      }
      if Required(|pairs|, mlf) < required {
        RoomForPairs(|pairs|, n, mlf);
      }
      inside := |pairs| <= PairRoom(n, mlf);
      if inside {
        Rebuild(n);
      }
    }

    /** `rebuild` and the loop of `rehash`: the pairs move to a buffer of the new size, and an empty index is filled slot
        by slot. */
    method Rebuild(n: nat)
      requires GoodSize(n) && |pairs| <= n && DistinctKeys(pairs) && LOAD_ONE <= mlf && 4 <= n
      requires |pairs| <= PairRoom(n, mlf)
      modifies `index, `pairs, `last, `at, `chains, `numBuckets, `etail
      ensures Valid() && numBuckets == n && etail == INACTIVE && pairs == old(pairs)
    {
      ghost var keys := Keys();
      pairs := MovedPairs(pairs, PairRoom(n, mlf));
      hide *;
      EmptyIndex(n, keys);
      etail := INACTIVE;
      var slot: nat := 0;
      while slot < |pairs|
        invariant slot <= |pairs| && Linked(keys) && Covers(at, slot) && last <= numBuckets == n
        invariant etail == INACTIVE && keys == Keys() && pairs == old(pairs)
      {
        PlaceSlot(slot, keys);
        slot := slot + 1;
      }
      RebuiltIsValid();
    }

    /** Finds a bucket for a pair that is stored already. */
    method PlaceSlot(slot: nat, ghost keys: seq<K>)
      requires Linked(keys) && Covers(at, slot) && slot < |pairs| <= numBuckets && last <= numBuckets && keys == Keys()
      modifies `index, `last, `at, `chains
      ensures Linked(keys) && Covers(at, slot + 1) && last <= numBuckets
    {
      hide *;
      CoversSize(at, slot);
      SlotsBelow(slot);
      KeyAt(slot);
      ghost var was := at;
      var bucket := FindUniqueBucket(pairs[slot].key, keys, slot);
      AllocatedFacts(keys, slot, bucket);
      PackedHere(slot);
      index := index[bucket := Cell(bucket, slot + KeyBits(hash(pairs[slot].key)))];
      at := at[slot := bucket];
      CoversNext(was, slot, bucket);
      assert Forest(Sp(), index, keys, at, chains);
      RelinkedFacts(keys, slot);
    }

    method EmptyIndex(n: nat, ghost keys: seq<K>)
      requires GoodSize(n)
      modifies `index, `last, `at, `chains, `numBuckets
      ensures Linked(keys) && Covers(at, 0) && numBuckets == n && last == 0
    {
      hide GoodSize, Low;
      SizeFacts(n);
      last := 0;
      numBuckets := n;
      index := seq(n, i => Cell(INACTIVE, 0xFFFF_FFFF)) + [Cell(0, 0), Cell(0, 0)];
      at := map[];
      chains := seq(n, i => []);
      forall m: nat | m < n
        ensures Chain(Sp(), index, keys, m, chains[m])
      {
        NoLinks(Sp(), index, keys, m);
      }
    }

    lemma KeyAt(slot: nat)
      requires slot < |pairs|
      ensures slot < |Keys()| && Keys()[slot] == pairs[slot].key
    {
    }

    lemma PackedHere(slot: nat)
      requires slot < |pairs| && numBuckets > 0
      ensures slot + KeyBits(hash(pairs[slot].key)) == Packed(Sp(), slot, pairs[slot].key)
    {
    }

    lemma CoversNext(was: map<nat, nat>, slot: nat, b: nat)
      requires Covers(was, slot) && slot in at && at.Keys == was.Keys + {slot}
      ensures Covers(at, slot + 1)
    {
      forall i: nat
        ensures i in at <==> i < slot + 1
      {
        assert i in at <==> i in was.Keys + {slot};
      }
    }

    lemma RelinkedFacts(keys: seq<K>, slot: nat)
      requires Forest(Sp(), index, keys, at, chains) && Covers(at, slot + 1) && slot < |pairs| && keys == Keys()
      ensures Linked(keys)
    {
    }

    lemma RebuiltIsValid()
      requires Linked(Keys()) && Covers(at, |pairs|) && |pairs| <= numBuckets && DistinctKeys(pairs)
      requires etail == INACTIVE && last <= numBuckets && LOAD_ONE <= mlf && 4 <= numBuckets
      requires |pairs| <= PairRoom(numBuckets, mlf)
      ensures Valid()
    {
    }

    function SlotIn(b: nat): (s: nat)
      requires b < |index| && numBuckets > 0
      reads `index, `numBuckets
      ensures s < numBuckets
    {
      Low(index[b].slot, numBuckets)
    }

    lemma MainIs(key: K)
      requires numBuckets > 0
      ensures MainOf(key) == Main(Sp(), key)
    {
    }

    lemma FilledFacts(keys: seq<K>, b: nat)
      requires Linked(keys) && b < numBuckets && b < |index| && index[b].next >= 0
      ensures numBuckets > 0 && SlotIn(b) == SlotOf(Sp(), index[b]) && SlotIn(b) in at && at[SlotIn(b)] == b
      ensures SlotIn(b) < |pairs| && SlotIn(b) < |keys| && keys[SlotIn(b)] == pairs[SlotIn(b)].key
    {
      FilledAt(Sp(), index, keys, at, chains, b);
    }
  }

  /** Some pairs that satisfy the predicate are gone, and no others. */
  ghost predicate Sieving<K, V>(was: map<K, V>, now: map<K, V>, pred: (K, V) -> bool) {
    && (forall k | k in now :: k in was && now[k] == was[k])
    && (forall k | k in was && k !in now :: pred(k, was[k]))
  }

  /** What stays of the pairs when those from `i` on are looked at in turn: one that satisfies the predicate is overwritten
      with the last pair, which is looked at next. */
  ghost function Sieved<K, V>(pairs: seq<Entry<K, V>>, pred: (K, V) -> bool, i: nat): seq<Entry<K, V>>
    requires i <= |pairs|
    decreases |pairs| - i
  {
    if i == |pairs| then pairs
    else if pred(pairs[i].key, pairs[i].value) then Sieved(SwapRemove(pairs, i), pred, i)
    else Sieved(pairs, pred, i + 1)
  }

  lemma SievedStep<K, V>(pairs: seq<Entry<K, V>>, pred: (K, V) -> bool, i: nat)
    requires i <= |pairs|
    ensures Sieved(pairs, pred, i) == if i == |pairs| then pairs
            else if pred(pairs[i].key, pairs[i].value) then Sieved(SwapRemove(pairs, i), pred, i)
            else Sieved(pairs, pred, i + 1)
  {
  }

  lemma SievingStarts<K, V>(was: map<K, V>, pred: (K, V) -> bool)
    ensures Sieving(was, was, pred)
  {
  }

  lemma SievingStep<K, V>(was: map<K, V>, pairs: seq<Entry<K, V>>, pred: (K, V) -> bool, i: nat)
    requires DistinctKeys(pairs) && i < |pairs| && Sieving(was, AsMap(pairs), pred) && pred(pairs[i].key, pairs[i].value)
    ensures Sieving(was, AsMap(pairs) - {pairs[i].key}, pred)
  {
    AsMapKeys(pairs, pairs[i].key);
  }

  lemma SievingEnds<K, V>(was: map<K, V>, pairs: seq<Entry<K, V>>, pred: (K, V) -> bool)
    requires DistinctKeys(pairs) && Sieving(was, AsMap(pairs), pred)
    requires forall i | 0 <= i < |pairs| :: !pred(pairs[i].key, pairs[i].value)
    ensures AsMap(pairs) == map k | k in was && !pred(k, was[k]) :: was[k]
  {
  }

  lemma LoadAbove(f: real)
    requires 0.0 < f < 1.0
    ensures (LOAD_ONE as real / f).Floor >= LOAD_ONE
  {
    var q := LOAD_ONE as real / f;
    assert q * f == LOAD_ONE as real;
    assert (q - LOAD_ONE as real) * f == LOAD_ONE as real * (1.0 - f);
    assert q - LOAD_ONE as real >= 0.0;
  }

  /** The pairs that fit the buffer of a table with so many buckets. */
  function PairRoom(n: nat, mlf: nat): nat
    requires mlf > 0
  {
    Quotient(n * LOAD_ONE, mlf) + 4
  }

  /** The room is what the load factor makes of the buckets, and four places more. */
  lemma RoomIsShare(n: nat, mlf: nat)
    requires mlf > 0
    ensures (PairRoom(n, mlf) - 4) * mlf <= n * LOAD_ONE < (PairRoom(n, mlf) - 3) * mlf
  {
    var x := n * LOAD_ONE;
    assert x == mlf * (x / mlf) + x % mlf;
  }

  lemma RequiredIsShare(count: nat, mlf: nat)
    ensures Required(count, mlf) * LOAD_ONE <= count * mlf < (Required(count, mlf) + 1) * LOAD_ONE
  {
  }

  lemma MultiplierIsInverse(f: real)
    requires 0.0 < f < 1.0
    ensures Multiplier(f) as real * f <= LOAD_ONE as real < (Multiplier(f) + 1) as real * f
  {
    var q := LOAD_ONE as real / f;
    var r := Multiplier(f) as real;
    assert q * f == LOAD_ONE as real && r <= q < r + 1.0;
    assert (q - r) * f >= 0.0 && (r + 1.0 - q) * f > 0.0;
  }

  function Quotient(a: nat, d: nat): nat
    requires d > 0
  {
    QuotientNonNegative(a, d);
    a / d
  }

  /** `_mlf` of a load factor. */
  function Multiplier(f: real): (r: nat)
    requires 0.0 < f < 1.0
    ensures LOAD_ONE <= r
  {
    LoadAbove(f);
    (LOAD_ONE as real / f).Floor
  }

  /** Writes the next pair of a buffer that has room for `room`. */
  method Construct<T>(buffer: seq<T>, room: nat, pair: T) returns (r: seq<T>)
    requires |buffer| < room
    ensures r == buffer + [pair]
  {
    r := buffer + [pair];
  }

  /** Moves the pairs one by one to a new buffer that has room for `room`. */
  method MovedPairs<T>(pairs: seq<T>, room: nat) returns (r: seq<T>)
    requires |pairs| <= room
    ensures r == pairs
  {
    r := [];
    var slot := 0;
    while slot < |pairs|
      invariant slot <= |pairs| && r == pairs[..slot]
    {
      r := Construct(r, room, pairs[slot]);
      slot := slot + 1;
    }
  }

  lemma QuotientMonotone(a: nat, b: nat, d: nat)
    requires a <= b && d > 0
    ensures Quotient(a, d) <= Quotient(b, d)
  {
    var p, q := a / d, b / d;
    assert a == d * p + a % d && b == d * q + b % d;
    if p > q {
      MulMono(q + 1, p, d);
      assert false;
    }
  }

  lemma MoreRoom(n: nat, n': nat, mlf: nat)
    requires n <= n' && mlf > 0
    ensures PairRoom(n, mlf) <= PairRoom(n', mlf)
  {
    QuotientMonotone(n * LOAD_ONE, n' * LOAD_ONE, mlf);
  }

  /** More buckets than `reserve` requires for some pairs have room for four pairs more. */
  lemma RoomForPairs(count: nat, n: nat, mlf: nat)
    requires mlf > 0 && Required(count, mlf) < n
    ensures count + 4 <= PairRoom(n, mlf)
  {
    var x := count * mlf;
    assert x == LOAD_ONE * (x / LOAD_ONE) + x % LOAD_ONE;
    assert x <= n * LOAD_ONE;
    DivModUnique(x, mlf, count, 0);
    QuotientMonotone(x, n * LOAD_ONE, mlf);
  }

  lemma RequiredIsEnough(count: nat, mlf: nat)
    requires LOAD_ONE <= mlf
    ensures Required(count, mlf) >= count
  {
    MulMono(LOAD_ONE, mlf, count);
  }

  function Required(count: nat, mlf: nat): nat {
    count * mlf / LOAD_ONE
  }

  /** Where the roving search is sure to meet the empty bucket `e`: it never visits bucket 0 but halfway round. */
  ghost function Target(e: nat, n: nat): nat {
    if e == 0 then n / 2 else e
  }

  lemma TargetIs(e: nat, n: nat)
    requires GoodSize(n) && e < n
    ensures 0 < Target(e, n) < n
  {
    SizeFacts(n);
  }

  lemma LowOfLast(l: nat, n: nat)
    requires GoodSize(n) && l <= n && n > 0
    ensures Low(l, n) == if l == n then 0 else l
  {
    if l == n {
      LowWraps(l, n);
    } else {
      LowOfSmall(l, n);
    }
  }

  lemma NotTarget(index: seq<Cell>, e: nat, l: nat, n: nat)
    requires GoodSize(n) && n > 0 && e < n && l <= n < |index| && index[e].next < 0
    requires index[l].next >= 0 && index[Low(n / 2 + l, n)].next >= 0
    ensures l != Target(e, n)
  {
    SizeFacts(n);
    if e == 0 && l == n / 2 {
      LowWraps(n / 2 + l, n);
    }
  }

  // ----- two tables whose pairs outgrow the buffer they are moved to

  function Itself(key: nat): Word64 { key % TWO_TO_64 }

  lemma DefaultMultiplier()
    ensures Multiplier(0.8) == 0xA00_0000 && Multiplier(0.5) == 0x1000_0000
  {
    assert LOAD_ONE as real / 0.8 == 0xA00_0000 as real;
    assert LOAD_ONE as real / 0.5 == 0x1000_0000 as real;
  }

  lemma SmallSizes()
    ensures BucketsFor(4, 0, 0x100) == 0x100 && BucketsFor(4, 30, 31) == 32
  {
    WordPowers();
    Pow2Sum(4, 4);
    SameBuckets(4, 0x100, 0);
    assert Doubled(16, 31) == Doubled(32, 31) == 32;
    assert Doubled(4, 31) == Doubled(8, 31) == Doubled(16, 31);
  }

  lemma NewKey(pairs: seq<Entry<nat, ()>>, key: nat)
    requires forall i | 0 <= i < |pairs| :: pairs[i].key < key
    ensures !HasKey(pairs, key) && forall i | 0 <= i < |pairs| + 1 :: (pairs + [Entry(key, ())])[i].key < key + 1
  {
  }

  lemma FewGrow(t: Table<nat, ()>)
    requires |t.pairs| < 200 && t.mlf == 0xA00_0000
    ensures t.MayGrow() && (t.numBuckets == 0x100 ==> t.SizeFor(|t.pairs|) == 0x100)
  {
  }

  /** The keys below `count` in 256 buckets with the default load factor. */
  method FilledTable(count: nat) returns (t: Table<nat, ()>)
    requires count <= 200
    ensures fresh(t) && t.Valid() && |t.pairs| == count && t.numBuckets == 0x100 && t.mlf == 0xA00_0000
  {
    DefaultMultiplier();
    SmallSizes();
    t := new Table(Itself, 0x100, DEFAULT_LOAD_FACTOR);
    hide *;
    var key := 0;
    while key < count
      invariant key <= count && fresh(t) && t.Valid() && t.numBuckets == 0x100 && t.mlf == 0xA00_0000
      invariant |t.pairs| == key && forall i | 0 <= i < |t.pairs| :: t.pairs[i].key < key
    {
      FewGrow(t);
      NewKey(t.pairs, key);
      var slot, inserted := t.Insert(key, ());
      key := key + 1;
    }
  }

  /** Shrinking: thirty pairs in 256 buckets go to 32 buckets, whose buffer has room for 29. */
  method ShrinkCanOverrun() returns (inside: bool)
    ensures !inside
  {
    SmallSizes();
    var t := FilledTable(30);
    inside := t.ShrinkToFit(0.2);
  }

  /** A lower load factor: two hundred pairs in 256 buckets, whose new buffer has room for 132. */
  method LowerFactorCanOverrun() returns (inside: bool)
    ensures !inside
  {
    DefaultMultiplier();
    var t := FilledTable(200);
    inside := t.SetMaxLoadFactor(0.5);
  }
}
