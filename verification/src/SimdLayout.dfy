/** The tag and entry arrays of SimdHash as values: what a probe sees, what is stored, and what each step keeps. */
module SimdLayout {
  import opened Arithmetic
  import opened Entries
  import opened SimdProbe

  type Byte = b: nat | b < 256

  // Tags below 0x80 are occupied; bit 7 marks every other kind.
  const EMPTY: Byte := 0x80
  const TOMBSTONE: Byte := 0x81
  const FORBIDDEN: Byte := 0x82

  /** The hash function and the capacity mode of a table. */
  datatype Config<!K> = Config(hash: K -> Word64, mode: Mode)

  /** A table of capacity `n`: `n` tags followed by one window of sentinels, and the entries. */
  datatype Layout<K, V> = Layout(n: nat, tags: seq<Byte>, entries: seq<Entry<K, V>>)

  /** The seven most significant bits of the hash. */
  function HashToTag(h: Word64): (t: Byte)
    ensures t < EMPTY
  {
    h / 0x0200_0000_0000_0000
  }

  lemma TagIsTopBits(h: Word64)
    ensures HashToTag(h) * 0x0200_0000_0000_0000 <= h < (HashToTag(h) + 1) * 0x0200_0000_0000_0000
  {
  }

  predicate Occupied(t: Byte) { t < EMPTY }

  predicate Free(t: Byte) { t == EMPTY || t == TOMBSTONE }

  // ----- windows: a SIMD mask is the set of lanes that satisfy a byte test

  type TagVector = w: seq<Byte> | |w| == WINDOW witness seq(WINDOW, _ => EMPTY)

  function GetCmpMask(source: TagVector, target: Byte): set<nat> {
    set l: nat | l < WINDOW && source[l] == target
  }

  function GetEmptyMask(source: TagVector): set<nat> {
    set l: nat | l < WINDOW && source[l] == EMPTY
  }

  function GetEmptyOrTombstoneMask(source: TagVector): set<nat> {
    set l: nat | l < WINDOW && Free(source[l])
  }

  // ----- the invariant

  function Home<K>(cfg: Config<K>, n: nat, key: K): nat
    requires n > 0
  {
    AdjustTupleIndex(cfg.mode, n, cfg.hash(key))
  }

  ghost predicate Shape<K, V>(cfg: Config<K>, s: Layout<K, V>) {
    && GoodCapacity(cfg.mode, s.n)
    && |s.tags| == s.n + WINDOW
    && |s.entries| >= s.n
    && (forall i | 0 <= i < s.n :: Occupied(s.tags[i]) || Free(s.tags[i]))
    && (forall i | s.n <= i < s.n + WINDOW :: s.tags[i] == FORBIDDEN)
  }

  ghost predicate HasEmpty(tags: seq<Byte>, p: nat)
    requires p + WINDOW <= |tags|
  {
    exists i :: p <= i < p + WINDOW && tags[i] == EMPTY
  }

  ghost predicate HasFree(tags: seq<Byte>, p: nat)
    requires p + WINDOW <= |tags|
  {
    exists i :: p <= i < p + WINDOW && Free(tags[i])
  }

  /** Start of the `k`-th window of the probe for `key`. */
  ghost function Start<K>(cfg: Config<K>, n: nat, key: K, k: nat): (p: nat)
    requires GoodCapacity(cfg.mode, n)
    ensures p < n
  {
    AdjustIsReduction(cfg.mode, n, cfg.hash(key));
    Pos(Home(cfg, n, key), k, n)
  }

  /** Slot `i` lies in the `k`-th window of the probe for `key` and no earlier window holds an EMPTY tag. */
  ghost predicate ReachedAt<K, V>(cfg: Config<K>, s: Layout<K, V>, key: K, i: nat, k: nat)
    requires Shape(cfg, s)
  {
    && Start(cfg, s.n, key, k) <= i < Start(cfg, s.n, key, k) + WINDOW
    && forall j: nat | j < k :: !HasEmpty(s.tags, Start(cfg, s.n, key, j))
  }

  ghost predicate Placed<K, V>(cfg: Config<K>, s: Layout<K, V>, i: nat)
    requires Shape(cfg, s) && i < s.n
  {
    var key := s.entries[i].key;
    && s.tags[i] == HashToTag(cfg.hash(key))
    && exists k: nat :: ReachedAt(cfg, s, key, i, k)
  }

  /** Every occupied slot carries its key's tag and can be reached by its key's probe. */
  ghost predicate Inv<K, V>(cfg: Config<K>, s: Layout<K, V>) {
    && Shape(cfg, s)
    && forall i: nat | i < s.n && Occupied(s.tags[i]) :: Placed(cfg, s, i)
  }

  ghost predicate NoTombstone<K, V>(s: Layout<K, V>) {
    forall i | 0 <= i < |s.tags| :: s.tags[i] != TOMBSTONE
  }

  // ----- what is stored

  ghost function One<K, V>(tags: seq<Byte>, entries: seq<Entry<K, V>>, i: nat): multiset<Entry<K, V>>
    requires i < |tags| && i < |entries|
  {
    if Occupied(tags[i]) then multiset{entries[i]} else multiset{}
  }

  /** The entries of the occupied slots below `m`. */
  ghost function Occupants<K, V>(tags: seq<Byte>, entries: seq<Entry<K, V>>, m: nat): multiset<Entry<K, V>>
    requires m <= |tags| && m <= |entries|
  {
    if m == 0 then multiset{} else Occupants(tags, entries, m - 1) + One(tags, entries, m - 1)
  }

  ghost function Contents<K, V>(s: Layout<K, V>): multiset<Entry<K, V>>
    requires s.n <= |s.tags| && s.n <= |s.entries|
  {
    Occupants(s.tags, s.entries, s.n)
  }

  lemma {:induction false} OccupantsCongruent<K, V>(tags: seq<Byte>, entries: seq<Entry<K, V>>,
      tags': seq<Byte>, entries': seq<Entry<K, V>>, m: nat)
    requires m <= |tags| && m <= |entries| && m <= |tags'| && m <= |entries'|
    requires forall i | 0 <= i < m :: Occupied(tags[i]) <==> Occupied(tags'[i])
    requires forall i | 0 <= i < m && Occupied(tags[i]) :: entries[i] == entries'[i]
    ensures Occupants(tags, entries, m) == Occupants(tags', entries', m)
  {
    if m == 0 {
    } else {
      OccupantsCongruent(tags, entries, tags', entries', m - 1);
    }
  }

  lemma OneCongruent<K, V>(tags: seq<Byte>, entries: seq<Entry<K, V>>, tags': seq<Byte>, entries': seq<Entry<K, V>>, i: nat)
    requires i < |tags| && i < |entries| && i < |tags'| && i < |entries'|
    requires tags[i] == tags'[i] && entries[i] == entries'[i]
    ensures One(tags, entries, i) == One(tags', entries', i)
  {
  }

  lemma MultisetExchange<T>(a: multiset<T>, b: multiset<T>, x: multiset<T>, c: multiset<T>, d: multiset<T>)
    requires a + c == b + d
    ensures (a + x) + c == (b + x) + d
  {
    assert (a + x) + c == (a + c) + x;
    assert (b + x) + d == (b + d) + x;
  }

  lemma MultisetCommute<T>(a: multiset<T>, x: multiset<T>, y: multiset<T>)
    ensures a + x + y == a + y + x
  {
  }

  /** Rewriting one slot exchanges that slot's contribution and nothing else. */
  lemma {:induction false} OccupantsUpdate<K, V>(tags: seq<Byte>, entries: seq<Entry<K, V>>, i: nat, t: Byte,
      e: Entry<K, V>, m: nat)
    requires i < m <= |tags| && m <= |entries|
    ensures var tags', entries' := tags[i := t], entries[i := e];
            Occupants(tags', entries', m) + One(tags, entries, i)
            == Occupants(tags, entries, m) + One(tags', entries', i)
  {
    hide One, Occupied;
    var tags', entries' := tags[i := t], entries[i := e];
    if i == m - 1 {
      OccupantsCongruent(tags, entries, tags', entries', m - 1);
      MultisetCommute(Occupants(tags, entries, m - 1), One(tags, entries, i), One(tags', entries', i));
    } else {
      OccupantsUpdate(tags, entries, i, t, e, m - 1);
      OneCongruent(tags, entries, tags', entries', m - 1);
      MultisetExchange(Occupants(tags', entries', m - 1), Occupants(tags, entries, m - 1),
                       One(tags, entries, m - 1), One(tags, entries, i), One(tags', entries', i));
    }
  }

  lemma {:induction false} OccupantAt<K, V>(tags: seq<Byte>, entries: seq<Entry<K, V>>, m: nat, i: nat)
    requires i < m <= |tags| && m <= |entries| && Occupied(tags[i])
    ensures entries[i] in Occupants(tags, entries, m)
  {
    assert entries[i] in One(tags, entries, i);
    hide One, Occupied;
    if i < m - 1 {
      OccupantAt(tags, entries, m - 1, i);
    }
  }

  lemma {:induction false} SlotOf<K, V>(tags: seq<Byte>, entries: seq<Entry<K, V>>, m: nat, e: Entry<K, V>)
      returns (i: nat)
    requires m <= |tags| && m <= |entries| && e in Occupants(tags, entries, m)
    ensures i < m && Occupied(tags[i]) && entries[i] == e
  {
    if e in One(tags, entries, m - 1) {
      i := m - 1;
    } else {
      i := SlotOf(tags, entries, m - 1, e);
    }
  }

  /** A run of occupied slots is no longer than the number of entries. */
  lemma {:induction false} OccupiedRun<K, V>(tags: seq<Byte>, entries: seq<Entry<K, V>>, lo: nat, m: nat)
    requires m <= |tags| && m <= |entries|
    requires forall i | lo <= i < m :: Occupied(tags[i])
    ensures |Occupants(tags, entries, m)| >= m - lo
  {
    if m <= lo {
    } else {
      OccupiedRun(tags, entries, lo, m - 1);
    }
  }

  lemma {:induction false} OccupantsEmpty<K, V>(tags: seq<Byte>, entries: seq<Entry<K, V>>, m: nat)
    requires m <= |tags| && m <= |entries|
    requires forall i | 0 <= i < m :: !Occupied(tags[i])
    ensures Occupants(tags, entries, m) == multiset{}
  {
    if m == 0 {
    } else {
      OccupantsEmpty(tags, entries, m - 1);
    }
  }
}
