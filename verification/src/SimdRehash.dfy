/** The in-place rehash of SimdHash as steps over one entry array with two tag arrays. */
module SimdRehash {
  import opened Entries
  import opened LaneMasks
  import opened SimdProbe
  import opened SimdLayout
  import opened SimdSteps

  /** `i` is the lowest EMPTY slot of the first window that has one. */
  ghost predicate FirstEmptyAt<K, V>(cfg: Config<K>, s: Layout<K, V>, key: K, i: nat, k: nat)
    requires Shape(cfg, s)
  {
    var p := Start(cfg, s.n, key, k);
    && p <= i < p + WINDOW && s.tags[i] == EMPTY
    && (forall m | p <= m < i :: s.tags[m] != EMPTY)
    && (forall j: nat | j < k :: !HasEmpty(s.tags, Start(cfg, s.n, key, j)))
  }

  lemma FirstEmptyIsFree<K, V>(cfg: Config<K>, s: Layout<K, V>, key: K, i: nat, k: nat)
    requires Shape(cfg, s) && NoTombstone(s) && FirstEmptyAt(cfg, s, key, i, k)
    ensures FirstFreeAt(cfg, s, key, i, k)
  {
    forall j: nat | j < k
      ensures !HasFree(s.tags, Start(cfg, s.n, key, j))
    {
      assert !HasEmpty(s.tags, Start(cfg, s.n, key, j));
    }
  }

  lemma ScanEmpty<K, V>(cfg: Config<K>, s: Layout<K, V>, key: K, i: nat, k: nat)
    requires Shape(cfg, s) && forall j: nat | j < k :: !EmptyAhead(cfg, s, key, j)
    requires var p := Start(cfg, s.n, key, k); var mask := GetEmptyMask(s.tags[p..p + WINDOW]);
             mask != {} && i == p + TrailingZeroCount(mask)
    ensures FirstEmptyAt(cfg, s, key, i, k)
  {
    LowestEmptyLane(s.tags, Start(cfg, s.n, key, k), i);
    forall j: nat | j < k
      ensures !HasEmpty(s.tags, Start(cfg, s.n, key, j))
    {
      assert !EmptyAhead(cfg, s, key, j);
    }
  }

  lemma LowestEmptyLane(tags: seq<Byte>, p: nat, i: nat)
    requires p + WINDOW <= |tags|
    requires var mask := GetEmptyMask(tags[p..p + WINDOW]); mask != {} && i == p + TrailingZeroCount(mask)
    ensures p <= i < p + WINDOW && tags[i] == EMPTY && forall m | p <= m < i :: tags[m] != EMPTY
  {
    var w := tags[p..p + WINDOW];
    var l := TrailingZeroCount(GetEmptyMask(w));
    assert w[l] == EMPTY && w[l] == tags[i];
    forall m | p <= m < i
      ensures tags[m] != EMPTY
    {
      assert w[m - p] == tags[m];
      assert m - p !in GetEmptyMask(w);
    }
  }

  /** `cur` is the table being built; `pending` marks the slots below `m` whose old entries still wait;
      `hand` is what has been lifted out; `all` is what the table held before. */
  ghost predicate Rehashing<K, V>(cfg: Config<K>, cur: Layout<K, V>, pending: seq<Byte>, m: nat,
      hand: multiset<Entry<K, V>>, all: multiset<Entry<K, V>>)
  {
    && Inv(cfg, cur) && NoTombstone(cur)
    && m <= |pending| && m <= cur.n
    && (forall j | 0 <= j < m && Occupied(pending[j]) ::
          !Occupied(cur.tags[j]) && pending[j] == HashToTag(cfg.hash(cur.entries[j].key)))
    && Occupants(pending, cur.entries, m) + Contents(cur) + hand == all
  }

  /** Lifting a pending entry out. */
  lemma PickKeeps<K, V>(cfg: Config<K>, cur: Layout<K, V>, pending: seq<Byte>, m: nat, all: multiset<Entry<K, V>>, i: nat)
    requires Rehashing(cfg, cur, pending, m, multiset{}, all)
    requires i < m && Occupied(pending[i])
    ensures Rehashing(cfg, cur, pending[i := EMPTY], m, multiset{cur.entries[i]}, all)
    ensures pending[i] == HashToTag(cfg.hash(cur.entries[i].key))
    ensures |Occupants(pending[i := EMPTY], cur.entries, m)| < |Occupants(pending, cur.entries, m)|
  {
    var e := cur.entries[i];
    OccupantsUpdate(pending, cur.entries, i, EMPTY, e, m);
    assert cur.entries[i := e] == cur.entries;
    var before := Occupants(pending, cur.entries, m);
    var after := Occupants(pending[i := EMPTY], cur.entries, m);
    assert after + multiset{e} == before;
    assert after + Contents(cur) + multiset{e} == before + Contents(cur) + multiset{};
  }

  /** Placing the entry in hand where nothing waits. */
  lemma PlaceKeeps<K, V>(cfg: Config<K>, cur: Layout<K, V>, pending: seq<Byte>, m: nat, e: Entry<K, V>,
      all: multiset<Entry<K, V>>, x: nat, k: nat)
    requires Rehashing(cfg, cur, pending, m, multiset{e}, all)
    requires FirstFreeAt(cfg, cur, e.key, x, k) && (x < m ==> !Occupied(pending[x]))
    ensures Rehashing(cfg, Insert(cfg, cur, e.key, e.value, x), pending, m, multiset{}, all)
    ensures Contents(Insert(cfg, cur, e.key, e.value, x)) == Contents(cur) + multiset{e}
  {
    var cur' := Insert(cfg, cur, e.key, e.value, x);
    InsertKeeps(cfg, cur, e.key, e.value, x, k);
    OccupantsCongruent(pending, cur.entries, pending, cur'.entries, m);
    var waiting := Occupants(pending, cur.entries, m);
    assert waiting + (Contents(cur) + multiset{e}) + multiset{} == waiting + Contents(cur) + multiset{e};
  }

  /** Placing the entry in hand where another still waits: that one is lifted out instead. */
  lemma EvictKeeps<K, V>(cfg: Config<K>, cur: Layout<K, V>, pending: seq<Byte>, m: nat, e: Entry<K, V>,
      all: multiset<Entry<K, V>>, x: nat, k: nat)
    requires Rehashing(cfg, cur, pending, m, multiset{e}, all)
    requires FirstFreeAt(cfg, cur, e.key, x, k) && x < m && Occupied(pending[x])
    ensures var cur' := Insert(cfg, cur, e.key, e.value, x);
            && Rehashing(cfg, cur', pending[x := EMPTY], m, multiset{cur.entries[x]}, all)
            && Contents(cur') == Contents(cur) + multiset{e}
            && |Occupants(pending[x := EMPTY], cur'.entries, m)| < |Occupants(pending, cur.entries, m)|
    ensures pending[x] == HashToTag(cfg.hash(cur.entries[x].key))
  {
    var cur' := Insert(cfg, cur, e.key, e.value, x);
    InsertKeeps(cfg, cur, e.key, e.value, x, k);
    OccupantsUpdate(pending, cur.entries, x, EMPTY, e, m);
    var before := Occupants(pending, cur.entries, m);
    var after := Occupants(pending[x := EMPTY], cur'.entries, m);
    var y := multiset{cur.entries[x]};
    assert after + y == before by {
      assert One(pending[x := EMPTY], cur'.entries, x) == multiset{};
    }
    Exchange(after, before, y, Contents(cur), multiset{e});
    EvictKeepsTags(cfg, cur, pending, m, e, x);
  }

  lemma Exchange<T>(after: multiset<T>, before: multiset<T>, y: multiset<T>, c: multiset<T>, e: multiset<T>)
    requires after + y == before
    ensures after + (c + e) + y == before + c + e
  {
    assert after + (c + e) + y == (after + y) + (c + e);
  }

  lemma EvictKeepsTags<K, V>(cfg: Config<K>, cur: Layout<K, V>, pending: seq<Byte>, m: nat, e: Entry<K, V>, x: nat)
    requires Shape(cfg, cur) && m <= |pending| && m <= cur.n && x < m
    requires forall j | 0 <= j < m && Occupied(pending[j]) ::
               !Occupied(cur.tags[j]) && pending[j] == HashToTag(cfg.hash(cur.entries[j].key))
    ensures var cur', pending' := Insert(cfg, cur, e.key, e.value, x), pending[x := EMPTY];
            forall j | 0 <= j < m && Occupied(pending'[j]) ::
              !Occupied(cur'.tags[j]) && pending'[j] == HashToTag(cfg.hash(cur'.entries[j].key))
  {
  }

  /** Nothing pending and nothing in hand: the table holds exactly what it held before. */
  lemma RehashDone<K, V>(cfg: Config<K>, cur: Layout<K, V>, pending: seq<Byte>, m: nat, all: multiset<Entry<K, V>>)
    requires Rehashing(cfg, cur, pending, m, multiset{}, all)
    requires forall j | 0 <= j < m :: !Occupied(pending[j])
    ensures Contents(cur) == all
  {
    OccupantsEmpty(pending, cur.entries, m);
  }

  /** While anything is in hand there is room to place it. */
  lemma RehashRoom<K, V>(cfg: Config<K>, cur: Layout<K, V>, pending: seq<Byte>, m: nat, e: Entry<K, V>,
      all: multiset<Entry<K, V>>) returns (k: nat)
    requires Rehashing(cfg, cur, pending, m, multiset{e}, all)
    requires ProbeCapacity(cur.n) && |all| <= cur.n - WINDOW + 1
    ensures k < 2 * (cur.n / WINDOW) && EmptyAhead(cfg, cur, e.key, k)
  {
    assert |all| == |Occupants(pending, cur.entries, m)| + |Contents(cur)| + 1;
    k := InsertEnds(cfg, cur, e.key);
  }

  lemma RehashStarts<K, V>(cfg: Config<K>, old_: Layout<K, V>, cur: Layout<K, V>)
    requires Inv(cfg, old_) && Shape(cfg, cur) && old_.n <= cur.n && old_.entries == cur.entries
    requires forall i | 0 <= i < cur.n :: cur.tags[i] == EMPTY
    ensures Rehashing(cfg, cur, old_.tags, old_.n, multiset{}, Contents(old_))
  {
    FreshIsEmpty(cfg, cur);
    forall j | 0 <= j < old_.n && Occupied(old_.tags[j])
      ensures old_.tags[j] == HashToTag(cfg.hash(old_.entries[j].key))
    {
      assert Placed(cfg, old_, j);
    }
  }

  lemma RehashShape<K, V>(cfg: Config<K>, cur: Layout<K, V>, pending: seq<Byte>, m: nat,
      hand: multiset<Entry<K, V>>, all: multiset<Entry<K, V>>)
    requires Rehashing(cfg, cur, pending, m, hand, all)
    ensures Inv(cfg, cur) && Shape(cfg, cur) && NoTombstone(cur) && m <= cur.n && m <= |pending|
  {
  }

  lemma RehashFree<K, V>(cfg: Config<K>, cur: Layout<K, V>, pending: seq<Byte>, m: nat,
      hand: multiset<Entry<K, V>>, all: multiset<Entry<K, V>>, key: K, x: nat, k: nat)
    requires Rehashing(cfg, cur, pending, m, hand, all) && FirstEmptyAt(cfg, cur, key, x, k)
    ensures FirstFreeAt(cfg, cur, key, x, k) && x < cur.n
  {
    FirstEmptyIsFree(cfg, cur, key, x, k);
  }
}
