/** The bucket index of emhash8 as values: chains that start at main buckets, and what linking, moving and unlinking
    a bucket keep of them. */
module ChainForest {
  import opened Arithmetic
  import opened DenseValues

  const INACTIVE: int := -1
  const EAD: nat := 2
  const MAX_BUCKETS: nat := 0x8000_0000

  /** The successor on the chain (itself at the end, negative when the bucket is empty), and the slot of the pair
      below the bits of its hash. */
  datatype Cell = Cell(next: int, slot: nat)

  const CLEARED := Cell(INACTIVE, 0)

  datatype Space<!K> = Space(hash: K -> Word64, n: nat)

  ghost predicate GoodSize(n: nat) {
    exists p: nat :: 1 <= p <= 31 && n == Pow2(p)
  }

  // ----- masks

  /** `x & _mask`. */
  function Low(x: nat, n: nat): (r: nat)
    requires n > 0
    ensures r < n && r <= x
  {
    BitAndBelow(x, n - 1);
    BitAnd(x, n - 1)
  }

  /** `x & ~_mask`. */
  function High(x: nat, n: nat): nat
    requires n > 0
  {
    x - Low(x, n)
  }

  lemma LowIsModulo(x: nat, n: nat)
    requires GoodSize(n)
    ensures Low(x, n) == x % n
  {
    var p: nat :| 1 <= p <= 31 && n == Pow2(p);
    MaskIsModulo(x, p);
  }

  lemma LowOfSmall(x: nat, n: nat)
    requires GoodSize(n) && x < n && n > 0
    ensures Low(x, n) == x
  {
    hide *;
    LowIsModulo(x, n);
    DivModUnique(x, n, 0, x);
  }

  lemma LowWraps(x: nat, n: nat)
    requires GoodSize(n) && n > 0 && n <= x < 2 * n
    ensures Low(x, n) == x - n
  {
    hide *;
    LowIsModulo(x, n);
    DivModUnique(x, n, 1, x - n);
  }

  /** A slot and hash bits stored together come apart again. */
  lemma PackedParts(s: nat, x: nat, n: nat)
    requires GoodSize(n) && s < n && n > 0
    ensures Low(s + High(x, n), n) == s && High(s + High(x, n), n) == High(x, n)
  {
    hide BitAnd, Low, GoodSize, Pow2;
    LowIsModulo(x, n);
    QuotientTimes(x, n);
    LowOfSum(s, x / n, n, s + High(x, n));
  }

  lemma QuotientTimes(x: nat, n: nat)
    requires n > 0
    ensures x == x / n * n + x % n
  {
  }

  lemma LowOfSum(s: nat, q: int, n: nat, x: nat)
    requires GoodSize(n) && s < n && n > 0 && x == q * n + s
    ensures Low(x, n) == s
  {
    hide *;
    LowIsModulo(x, n);
    DivModUnique(x, n, q, s);
  }

  lemma SizeFacts(n: nat)
    requires GoodSize(n)
    ensures 2 <= n <= MAX_BUCKETS && n / 2 * 2 == n
  {
    var p: nat :| 1 <= p <= 31 && n == Pow2(p);
    Pow2Monotone(1, p);
    Pow2Monotone(p, 31);
    assert Pow2(1) == 2;
    WordPowers();
    assert n == 2 * Pow2(p - 1);
  }

  // ----- the forest

  /** The bucket a key's chain starts at. */
  function Main<K>(sp: Space<K>, key: K): (m: nat)
    requires sp.n > 0
    ensures m < sp.n
  {
    Low(sp.hash(key), sp.n)
  }

  function HashBits<K>(sp: Space<K>, key: K): nat
    requires sp.n > 0
  {
    High(sp.hash(key) % TWO_TO_32, sp.n)
  }

  function SlotOf<K>(sp: Space<K>, c: Cell): (s: nat)
    requires sp.n > 0
    ensures s < sp.n
  {
    Low(c.slot, sp.n)
  }

  function BitsOf<K>(sp: Space<K>, c: Cell): nat
    requires sp.n > 0
  {
    High(c.slot, sp.n)
  }

  /** `s | (key_hash & ~_mask)`: the two share no bits. */
  function Packed<K>(sp: Space<K>, s: nat, key: K): nat
    requires sp.n > 0
  {
    s + HashBits(sp, key)
  }

  lemma PackedIs<K>(sp: Space<K>, s: nat, key: K, next: int)
    requires GoodSize(sp.n) && s < sp.n && sp.n > 0
    ensures SlotOf(sp, Cell(next, Packed(sp, s, key))) == s
    ensures BitsOf(sp, Cell(next, Packed(sp, s, key))) == HashBits(sp, key)
  {
    PackedParts(s, sp.hash(key) % TWO_TO_32, sp.n);
  }

  ghost predicate Distinct(c: seq<nat>) {
    forall i, j | 0 <= i < j < |c| :: c[i] != c[j]
  }

  ghost predicate OnChain<K>(sp: Space<K>, index: seq<Cell>, keys: seq<K>, m: nat, c: seq<nat>, i: nat)
    requires sp.n > 0 && i < |c|
  {
    && c[i] < sp.n && c[i] < |index|
    && index[c[i]].next == (if i + 1 < |c| then c[i + 1] else c[i])
    && SlotOf(sp, index[c[i]]) < |keys| && Main(sp, keys[SlotOf(sp, index[c[i]])]) == m
    && (i == 0 ==> c[i] == m)
  }

  /** The buckets of `c`, without repetition, are linked from the main bucket `m` to a bucket linked to itself, and
      hold pairs whose keys belong there. */
  ghost predicate Chain<K>(sp: Space<K>, index: seq<Cell>, keys: seq<K>, m: nat, c: seq<nat>)
    requires sp.n > 0
  {
    Distinct(c) && forall i: nat | i < |c| :: OnChain(sp, index, keys, m, c, i)
  }

  /** Bucket `b` holds slot `s`, with the bits of its key's hash, and lies on its key's chain. */
  ghost predicate Holds<K>(sp: Space<K>, index: seq<Cell>, keys: seq<K>, chains: seq<seq<nat>>, s: nat, b: nat)
    requires sp.n > 0
  {
    && b < sp.n && b < |index| && s < |keys| && Main(sp, keys[s]) < |chains|
    && index[b].next >= 0 && SlotOf(sp, index[b]) == s && BitsOf(sp, index[b]) == HashBits(sp, keys[s])
    && b in chains[Main(sp, keys[s])]
  }

  /** Every filled bucket lies on exactly one chain, the chain of its key's main bucket, and filled buckets correspond
      one to one to the slots in `at`; two buckets that are never empty follow the last. */
  ghost predicate Forest<K>(sp: Space<K>, index: seq<Cell>, keys: seq<K>, at: map<nat, nat>, chains: seq<seq<nat>>) {
    && GoodSize(sp.n) && sp.n > 0 && |index| == sp.n + EAD && |chains| == sp.n
    && index[sp.n].next >= 0 && index[sp.n + 1].next >= 0
    && (forall s | s in at :: Holds(sp, index, keys, chains, s, at[s]))
    && (forall b: nat | b < sp.n && index[b].next >= 0 :: SlotOf(sp, index[b]) in at && at[SlotOf(sp, index[b])] == b)
    && (forall m: nat | m < sp.n :: Chain(sp, index, keys, m, chains[m]))
  }

  lemma ForestFacts<K>(sp: Space<K>, index: seq<Cell>, keys: seq<K>, at: map<nat, nat>, chains: seq<seq<nat>>)
    requires Forest(sp, index, keys, at, chains)
    ensures GoodSize(sp.n) && 2 <= sp.n <= MAX_BUCKETS && |index| == sp.n + EAD && |chains| == sp.n
    ensures index[sp.n].next >= 0 && index[sp.n + 1].next >= 0
  {
    SizeFacts(sp.n);
  }

  lemma HoldsAt<K>(sp: Space<K>, index: seq<Cell>, keys: seq<K>, at: map<nat, nat>, chains: seq<seq<nat>>, s: nat)
    requires Forest(sp, index, keys, at, chains) && s in at
    ensures sp.n > 0 && Holds(sp, index, keys, chains, s, at[s])
  {
  }

  lemma FilledAt<K>(sp: Space<K>, index: seq<Cell>, keys: seq<K>, at: map<nat, nat>, chains: seq<seq<nat>>, b: nat)
    requires Forest(sp, index, keys, at, chains) && b < sp.n
    ensures b < |index|
    ensures index[b].next >= 0 ==> SlotOf(sp, index[b]) in at && at[SlotOf(sp, index[b])] == b
    ensures index[b].next >= 0 ==> Holds(sp, index, keys, chains, SlotOf(sp, index[b]), b)
  {
  }

  lemma ChainAt<K>(sp: Space<K>, index: seq<Cell>, keys: seq<K>, at: map<nat, nat>, chains: seq<seq<nat>>, m: nat)
    requires Forest(sp, index, keys, at, chains) && m < sp.n
    ensures m < |chains| && Chain(sp, index, keys, m, chains[m])
  {
  }

  lemma LinkAt<K>(sp: Space<K>, index: seq<Cell>, keys: seq<K>, at: map<nat, nat>, chains: seq<seq<nat>>, m: nat, i: nat)
    requires Forest(sp, index, keys, at, chains) && m < sp.n && m < |chains| && i < |chains[m]|
    ensures sp.n > 0 && OnChain(sp, index, keys, m, chains[m], i)
  {
  }

  /** A bucket on a chain is filled, and its key belongs to that chain and no other. */
  lemma MemberFilled<K>(sp: Space<K>, index: seq<Cell>, keys: seq<K>, at: map<nat, nat>, chains: seq<seq<nat>>,
      m: nat, b: nat)
    requires Forest(sp, index, keys, at, chains) && m < |chains| && b in chains[m]
    ensures b < sp.n && b < |index| && index[b].next >= 0
    ensures SlotOf(sp, index[b]) in at && at[SlotOf(sp, index[b])] == b && SlotOf(sp, index[b]) < |keys|
    ensures Main(sp, keys[SlotOf(sp, index[b])]) == m
  {
    var i :| 0 <= i < |chains[m]| && chains[m][i] == b;
    assert Chain(sp, index, keys, m, chains[m]);
    assert OnChain(sp, index, keys, m, chains[m], i);
  }

  /** A chain is untouched by changes to buckets that are not on it. */
  lemma ChainFrame<K>(sp: Space<K>, index: seq<Cell>, index': seq<Cell>, keys: seq<K>, m: nat, c: seq<nat>)
    requires sp.n > 0 && Chain(sp, index, keys, m, c) && |index'| == |index|
    requires forall b | b in c && b < |index| :: index'[b] == index[b]
    ensures Chain(sp, index', keys, m, c)
  {
    forall i: nat | i < |c|
      ensures OnChain(sp, index', keys, m, c, i)
    {
      assert OnChain(sp, index, keys, m, c, i);
      assert c[i] in c;
    }
  }

  /** The main bucket of a non-empty chain is filled with one of the chain's keys. */
  lemma NoChain<K>(sp: Space<K>, index: seq<Cell>, keys: seq<K>, at: map<nat, nat>, chains: seq<seq<nat>>, m: nat)
    requires Forest(sp, index, keys, at, chains) && m < sp.n
    requires index[m].next < 0 || (SlotOf(sp, index[m]) < |keys| && Main(sp, keys[SlotOf(sp, index[m])]) != m)
    ensures m < |chains| && chains[m] == []
  {
    if chains[m] != [] {
      LinkAt(sp, index, keys, at, chains, m, 0);
      MemberFilled(sp, index, keys, at, chains, m, chains[m][0]);
      assert false;
    }
  }

  /** Everything about the rest of a forest when the buckets of one chain, and empty buckets, change. */
  lemma OthersFrame<K>(sp: Space<K>, index: seq<Cell>, index': seq<Cell>, keys: seq<K>, at: map<nat, nat>,
      chains: seq<seq<nat>>,
      m: nat, k: nat)
    requires Forest(sp, index, keys, at, chains) && m < sp.n && k < sp.n && k != m && |index'| == |index|
    requires forall b: nat | b < sp.n && index'[b] != index[b] :: index[b].next < 0 || b in chains[m]
    ensures k < |chains| && Chain(sp, index', keys, k, chains[k])
  {
    ChainAt(sp, index, keys, at, chains, k);
    forall b | b in chains[k] && b < |index|
      ensures index'[b] == index[b]
    {
      MemberFilled(sp, index, keys, at, chains, k, b);
      if b in chains[m] {
        MemberFilled(sp, index, keys, at, chains, m, b);
      }
    }
    ChainFrame(sp, index, index', keys, k, chains[k]);
  }

  // ----- linking

  /** A pair stored in its empty main bucket starts a chain. */
  lemma StoreHead<K>(sp: Space<K>, index: seq<Cell>, keys: seq<K>, at: map<nat, nat>, chains: seq<seq<nat>>, s: nat, b: nat)
    requires Forest(sp, index, keys, at, chains) && s !in at && s < |keys| && s < sp.n
    requires b == Main(sp, keys[s]) && index[b].next < 0
    ensures b < |chains| && Forest(sp, index[b := Cell(b, Packed(sp, s, keys[s]))], keys, at[s := b], chains[b := [b]])
  {
    hide Forest, Chain, OnChain, GoodSize, Main, SlotOf, BitsOf, Packed;
    PackedIsNow(sp, index, keys, at, chains, s, b);
    NoChain(sp, index, keys, at, chains, b);
    var index', at', chains' := index[b := Cell(b, Packed(sp, s, keys[s]))], at[s := b], chains[b := [b]];
    forall k: nat | k < sp.n
      ensures Chain(sp, index', keys, k, chains'[k])
    {
      if k == b {
        OneLink(sp, index', keys, b);
      } else {
        OthersFrame(sp, index, index', keys, at, chains, b, k);
      }
    }
    forall t | t in at'
      ensures Holds(sp, index', keys, chains', t, at'[t])
    {
      if t != s {
        HoldsAt(sp, index, keys, at, chains, t);
      }
    }
    FilledStay(sp, index, index', keys, at, at', chains, s, b);
    MakeForest(sp, index', keys, at', chains');
  }

  lemma PackedIsNow<K>(sp: Space<K>, index: seq<Cell>, keys: seq<K>, at: map<nat, nat>, chains: seq<seq<nat>>,
      s: nat, b: nat)
    requires Forest(sp, index, keys, at, chains) && s < |keys| && s < sp.n
    ensures SlotOf(sp, Cell(b, Packed(sp, s, keys[s]))) == s
            && BitsOf(sp, Cell(b, Packed(sp, s, keys[s]))) == HashBits(sp, keys[s])
    ensures GoodSize(sp.n) && |index| == sp.n + EAD && |chains| == sp.n
    ensures index[sp.n].next >= 0 && index[sp.n + 1].next >= 0
  {
    PackedIs(sp, s, keys[s], b);
  }

  lemma OneLink<K>(sp: Space<K>, index: seq<Cell>, keys: seq<K>, b: nat)
    requires sp.n > 0 && b < sp.n && b < |index| && index[b].next == b && SlotOf(sp, index[b]) < |keys|
    requires Main(sp, keys[SlotOf(sp, index[b])]) == b
    ensures Chain(sp, index, keys, b, [b])
  {
  }

  lemma MakeForest<K>(sp: Space<K>, index: seq<Cell>, keys: seq<K>, at: map<nat, nat>, chains: seq<seq<nat>>)
    requires GoodSize(sp.n) && sp.n > 0 && |index| == sp.n + EAD && |chains| == sp.n
    requires index[sp.n].next >= 0 && index[sp.n + 1].next >= 0
    requires forall s | s in at :: Holds(sp, index, keys, chains, s, at[s])
    requires forall b: nat | b < sp.n && index[b].next >= 0 :: SlotOf(sp, index[b]) in at && at[SlotOf(sp, index[b])] == b
    requires forall m: nat | m < sp.n :: Chain(sp, index, keys, m, chains[m])
    ensures Forest(sp, index, keys, at, chains)
  {
  }

  /** Filled buckets keep their slots when a fresh slot is put into an empty bucket. */
  lemma FilledStay<K>(sp: Space<K>, index: seq<Cell>, index': seq<Cell>, keys: seq<K>, at: map<nat, nat>, at': map<nat, nat>,
      chains: seq<seq<nat>>, s: nat, e: nat)
    requires Forest(sp, index, keys, at, chains) && |index'| == |index| && s !in at && at' == at[s := e] && e < sp.n
    requires index'[e].next >= 0 && SlotOf(sp, index'[e]) == s
    requires forall b: nat | b < sp.n && b != e :: index'[b].slot == index[b].slot
                                                   && (index'[b].next >= 0 <==> index[b].next >= 0)
    ensures forall b: nat | b < sp.n && index'[b].next >= 0 :: SlotOf(sp, index'[b]) in at'
                                                               && at'[SlotOf(sp, index'[b])] == b
  {
    forall b: nat | b < sp.n && index'[b].next >= 0
      ensures SlotOf(sp, index'[b]) in at' && at'[SlotOf(sp, index'[b])] == b
    {
      FilledAt(sp, index, keys, at, chains, b);
    }
  }

  /** A forest in which only buckets of one chain, and empty buckets, have changed. */
  lemma Rechain<K>(sp: Space<K>, index: seq<Cell>, index': seq<Cell>, keys: seq<K>, at: map<nat, nat>, at': map<nat, nat>,
      chains: seq<seq<nat>>, m: nat, c: seq<nat>)
    requires Forest(sp, index, keys, at, chains) && m < sp.n && |index'| == |index| && m < |chains|
    requires index'[sp.n..] == index[sp.n..]
    requires forall b: nat | b < sp.n && index'[b] != index[b] :: index[b].next < 0 || b in chains[m]
    requires Chain(sp, index', keys, m, c)
    requires forall t | t in at' :: (t in at && at'[t] == at[t] && at[t] !in chains[m])
                                    || Holds(sp, index', keys, chains[m := c], t, at'[t])
    requires forall t | t in at && at[t] !in chains[m] :: t in at' && at'[t] == at[t]
    requires forall b: nat | b < sp.n && index'[b].next >= 0 ::
               (index'[b] == index[b] && b !in chains[m])
                   || (SlotOf(sp, index'[b]) in at' && at'[SlotOf(sp, index'[b])] == b)
    ensures Forest(sp, index', keys, at', chains[m := c])
  {
    hide Forest, Chain, OnChain, Main, SlotOf, BitsOf, HashBits, GoodSize;
    ForestFacts(sp, index, keys, at, chains);
    var chains' := chains[m := c];
    assert index'[sp.n..][0] == index[sp.n..][0] && index'[sp.n..][1] == index[sp.n..][1];
    forall k: nat | k < sp.n
      ensures Chain(sp, index', keys, k, chains'[k])
    {
      if k != m {
        OthersFrame(sp, index, index', keys, at, chains, m, k);
      }
    }
    forall t | t in at'
      ensures Holds(sp, index', keys, chains', t, at'[t])
    {
      if t in at && at'[t] == at[t] && at[t] !in chains[m] {
        HoldsAt(sp, index, keys, at, chains, t);
      }
    }
    forall b: nat | b < sp.n && index'[b].next >= 0
      ensures SlotOf(sp, index'[b]) in at' && at'[SlotOf(sp, index'[b])] == b
    {
      if index'[b] == index[b] && b !in chains[m] {
        FilledAt(sp, index, keys, at, chains, b);
      }
    }
    MakeForest(sp, index', keys, at', chains');
  }

  /** A filled bucket of the chain keeps its slot and hash bits, and stays on the chain. */
  lemma StillHolds<K>(sp: Space<K>, index: seq<Cell>, index': seq<Cell>, keys: seq<K>, at: map<nat, nat>,
      chains: seq<seq<nat>>,
      m: nat, c: seq<nat>, t: nat)
    requires Forest(sp, index, keys, at, chains) && m < sp.n && |index'| == |index| && m < |chains| && t in at
    requires at[t] in chains[m] && at[t] in c
    requires at[t] < |index'| && index'[at[t]].next >= 0 && index'[at[t]].slot == index[at[t]].slot
    ensures Holds(sp, index', keys, chains[m := c], t, at[t])
  {
    MemberFilled(sp, index, keys, at, chains, m, at[t]);
    HoldsAt(sp, index, keys, at, chains, t);
  }

  lemma ChainAppend<K>(sp: Space<K>, index: seq<Cell>, index': seq<Cell>, keys: seq<K>, m: nat, c: seq<nat>, e: nat)
    requires sp.n > 0 && Chain(sp, index, keys, m, c) && |c| > 0 && e !in c && |index'| == |index| && e < sp.n && e < |index|
    requires forall b | b in c && b < |index| :: index'[b] == if b == c[|c| - 1] then index[b].(next := e) else index[b]
    requires index'[e].next == e && SlotOf(sp, index'[e]) < |keys| && Main(sp, keys[SlotOf(sp, index'[e])]) == m
    ensures Chain(sp, index', keys, m, c + [e])
  {
    var c' := c + [e];
    forall i: nat | i < |c'|
      ensures OnChain(sp, index', keys, m, c', i)
    {
      hide Main, SlotOf;
      if i < |c| {
        assert OnChain(sp, index, keys, m, c, i);
        assert c[i] in c && SlotOf(sp, index'[c[i]]) == SlotOf(sp, index[c[i]]) by { SameSlot(sp, index[c[i]], e); }
      }
    }
  }

  lemma SameSlot<K>(sp: Space<K>, c: Cell, next: int)
    requires sp.n > 0
    ensures SlotOf(sp, c.(next := next)) == SlotOf(sp, c) && BitsOf(sp, c.(next := next)) == BitsOf(sp, c)
  {
  }

  /** A pair stored in an empty bucket that is linked to the end of its key's chain extends the chain. */
  lemma StoreTail<K>(sp: Space<K>, index: seq<Cell>, keys: seq<K>, at: map<nat, nat>, chains: seq<seq<nat>>, s: nat,
      m: nat, e: nat)
    requires Forest(sp, index, keys, at, chains) && s !in at && s < |keys| && s < sp.n && e < sp.n && index[e].next < 0
    requires m == Main(sp, keys[s]) && m < |chains| && chains[m] != []
    ensures var t := chains[m][|chains[m]| - 1];
            t < |index| && Forest(sp, index[t := index[t].(next := e)][e := Cell(e, Packed(sp, s, keys[s]))], keys,
                at[s := e],
                                  chains[m := chains[m] + [e]])
  {
    hide Forest, Chain, OnChain, GoodSize, Main, SlotOf, BitsOf, Packed, Holds;
    PackedIsNow(sp, index, keys, at, chains, s, e);
    var c := chains[m];
    var t := c[|c| - 1];
    MemberFilled(sp, index, keys, at, chains, m, t);
    var index' := index[t := index[t].(next := e)][e := Cell(e, Packed(sp, s, keys[s]))];
    var at', c' := at[s := e], c + [e];
    ChainAt(sp, index, keys, at, chains, m);
    EmptyIsOff(sp, index, keys, at, chains, m, e);
    ChainAppend(sp, index, index', keys, m, c, e);
    forall x | x in at'
      ensures (x in at && at'[x] == at[x] && at[x] !in c) || Holds(sp, index', keys, chains[m := c'], x, at'[x])
    {
      if x == s {
        MakeHolds(sp, index', keys, chains[m := c'], s, e);
      } else if at[x] in c {
        MemberFilled(sp, index, keys, at, chains, m, at[x]);
        StillHolds(sp, index, index', keys, at, chains, m, c', x);
      }
    }
    forall b: nat | b < sp.n && index'[b].next >= 0
      ensures (index'[b] == index[b] && b !in c) || (SlotOf(sp, index'[b]) in at' && at'[SlotOf(sp, index'[b])] == b)
    {
      FilledAt(sp, index, keys, at, chains, b);
      SameSlot(sp, index[b], e);
    }
    Rechain(sp, index, index', keys, at, at', chains, m, c');
  }

  lemma MakeHolds<K>(sp: Space<K>, index: seq<Cell>, keys: seq<K>, chains: seq<seq<nat>>, s: nat, b: nat)
    requires sp.n > 0 && b < sp.n && b < |index| && s < |keys| && Main(sp, keys[s]) < |chains|
    requires index[b].next >= 0 && SlotOf(sp, index[b]) == s && BitsOf(sp, index[b]) == HashBits(sp, keys[s])
    requires b in chains[Main(sp, keys[s])]
    ensures Holds(sp, index, keys, chains, s, b)
  {
  }

  lemma EmptyIsOff<K>(sp: Space<K>, index: seq<Cell>, keys: seq<K>, at: map<nat, nat>, chains: seq<seq<nat>>, m: nat, e: nat)
    requires Forest(sp, index, keys, at, chains) && m < |chains| && e < |index| && index[e].next < 0
    ensures e !in chains[m]
  {
    if e in chains[m] {
      MemberFilled(sp, index, keys, at, chains, m, e);
    }
  }

  // ----- moving

  lemma ChainReplace<K>(sp: Space<K>, index: seq<Cell>, index': seq<Cell>, keys: seq<K>, m: nat, c: seq<nat>, j: nat, e: nat)
    requires sp.n > 0 && Chain(sp, index, keys, m, c) && 0 < j < |c| && e !in c && |index'| == |index| && e < sp.n
             && e < |index|
    requires forall b | b in c && b < |index| && b != c[j] ::
               index'[b] == if b == c[j - 1] then index[b].(next := e) else index[b]
    requires c[j] < |index|
    requires index'[e] == Cell(if index[c[j]].next == c[j] then e else index[c[j]].next, index[c[j]].slot)
    ensures Chain(sp, index', keys, m, c[j := e])
  {
    var c' := c[j := e];
    forall i: nat | i < |c'|
      ensures OnChain(sp, index', keys, m, c', i)
    {
      hide Main, SlotOf;
      assert OnChain(sp, index, keys, m, c, i);
      assert c[i] in c;
      SameSlot(sp, index[c[i]], index'[c'[i]].next);
      if i == j {
        assert index'[e] == index[c[i]].(next := index'[c'[i]].next);
      } else if i == j - 1 {
        assert index'[c[i]] == index[c[i]].(next := index'[c'[i]].next);
      }
    }
  }

  lemma InUpdate(c: seq<nat>, j: nat, e: nat, x: nat)
    requires j < |c| && ((x in c && x != c[j]) || x == e)
    ensures x in c[j := e]
  {
    if x == e {
      assert c[j := e][j] == e;
    } else {
      var i :| 0 <= i < |c| && c[i] == x;
      assert c[j := e][i] == x;
    }
  }

  /** Moving a bucket that is not the first of its chain to an empty bucket, and linking the one before it there. */
  lemma KickOut<K>(sp: Space<K>, index: seq<Cell>, keys: seq<K>, at: map<nat, nat>, chains: seq<seq<nat>>, m: nat,
      j: nat, e: nat)
    requires Forest(sp, index, keys, at, chains) && m < sp.n && m < |chains| && 0 < j < |chains[m]| && e < sp.n
             && index[e].next < 0
    ensures var c := chains[m];
            var b, prev := c[j], c[j - 1];
            && b < sp.n && prev < sp.n && sp.n < |index|
            && var moved := Cell(if index[b].next == b then e else index[b].next, index[b].slot);
               Forest(sp, index[e := moved][prev := index[prev].(next := e)][b := index[b].(next := INACTIVE)], keys,
                      at[SlotOf(sp, index[b]) := e], chains[m := c[j := e]])
  {
    hide Forest, Chain, OnChain, GoodSize, Main, SlotOf, BitsOf, Holds;
    ForestFacts(sp, index, keys, at, chains);
    var c := chains[m];
    var b, prev := c[j], c[j - 1];
    MemberFilled(sp, index, keys, at, chains, m, b);
    MemberFilled(sp, index, keys, at, chains, m, prev);
    var moved := Cell(if index[b].next == b then e else index[b].next, index[b].slot);
    var index' := index[e := moved][prev := index[prev].(next := e)][b := index[b].(next := INACTIVE)];
    var s := SlotOf(sp, index[b]);
    var at', c' := at[s := e], c[j := e];
    ChainAt(sp, index, keys, at, chains, m);
    EmptyIsOff(sp, index, keys, at, chains, m, e);
    DistinctAt(sp, index, keys, m, c, j);
    ChainReplace(sp, index, index', keys, m, c, j, e);
    LinkAt(sp, index, keys, at, chains, m, j);
    NextIs(sp, index, keys, m, c, j);
    assert moved == index[b].(next := moved.next);
    SameSlot(sp, index[b], moved.next);
    HoldsAt(sp, index, keys, at, chains, s);
    forall x | x in at'
      ensures (x in at && at'[x] == at[x] && at[x] !in c) || Holds(sp, index', keys, chains[m := c'], x, at'[x])
    {
      if x == s {
        InUpdate(c, j, e, e);
        HoldsFacts(sp, index, keys, chains, s, b);
        MakeHolds(sp, index', keys, chains[m := c'], s, e);
      } else if at[x] in c {
        MemberFilled(sp, index, keys, at, chains, m, at[x]);
        SlotAtIs(sp, index, keys, at, chains, x);
        InUpdate(c, j, e, at[x]);
        StillHolds(sp, index, index', keys, at, chains, m, c', x);
      }
    }
    forall x: nat | x < sp.n && index'[x].next >= 0
      ensures (index'[x] == index[x] && x !in c) || (SlotOf(sp, index'[x]) in at' && at'[SlotOf(sp, index'[x])] == x)
    {
      FilledAt(sp, index, keys, at, chains, x);
      SameSlot(sp, index[x], e);
    }
    Rechain(sp, index, index', keys, at, at', chains, m, c');
  }

  lemma DistinctAt<K>(sp: Space<K>, index: seq<Cell>, keys: seq<K>, m: nat, c: seq<nat>, j: nat)
    requires sp.n > 0 && Chain(sp, index, keys, m, c) && 0 < j < |c|
    ensures c[j] != c[j - 1]
  {
  }

  lemma NextIs<K>(sp: Space<K>, index: seq<Cell>, keys: seq<K>, m: nat, c: seq<nat>, j: nat)
    requires sp.n > 0 && Chain(sp, index, keys, m, c) && j < |c|
    ensures c[j] < |index| && index[c[j]].next == (if j + 1 < |c| then c[j + 1] else c[j])
    ensures j + 1 < |c| ==> c[j + 1] != c[j]
    ensures j == 0 ==> c[j] == m
    ensures index[c[j]].next >= 0 && index[c[j]].next < sp.n
  {
    assert OnChain(sp, index, keys, m, c, j);
    if j + 1 < |c| {
      assert OnChain(sp, index, keys, m, c, j + 1);
    }
  }

  lemma HoldsFacts<K>(sp: Space<K>, index: seq<Cell>, keys: seq<K>, chains: seq<seq<nat>>, s: nat, b: nat)
    requires sp.n > 0 && Holds(sp, index, keys, chains, s, b)
    ensures b < sp.n && b < |index| && s < |keys| && Main(sp, keys[s]) < |chains|
    ensures index[b].next >= 0 && SlotOf(sp, index[b]) == s && BitsOf(sp, index[b]) == HashBits(sp, keys[s])
    ensures b in chains[Main(sp, keys[s])]
  {
  }

  lemma SlotAtIs<K>(sp: Space<K>, index: seq<Cell>, keys: seq<K>, at: map<nat, nat>, chains: seq<seq<nat>>, s: nat)
    requires Forest(sp, index, keys, at, chains) && s in at
    ensures sp.n > 0 && at[s] < |index| && SlotOf(sp, index[at[s]]) == s
  {
    HoldsAt(sp, index, keys, at, chains, s);
  }

  // ----- unlinking

  function Without(c: seq<nat>, j: nat): (r: seq<nat>)
    requires j < |c|
    ensures |r| == |c| - 1
  {
    c[..j] + c[j + 1..]
  }

  lemma InWithout(c: seq<nat>, j: nat)
    requires j < |c| && Distinct(c)
    ensures forall x :: x in Without(c, j) <==> x in c && x != c[j]
    ensures Distinct(Without(c, j))
  {
    var r := Without(c, j);
    assert forall i: nat | i < |r| :: r[i] == c[if i < j then i else i + 1];
    forall x
      ensures x in r <==> x in c && x != c[j]
    {
      if x in c && x != c[j] {
        var i :| 0 <= i < |c| && c[i] == x;
        assert r[if i < j then i else i - 1] == x;
      }
    }
  }

  /** Linking the bucket before to the bucket after, or to itself when there is none, takes a bucket off its chain. */
  lemma ChainRemove<K>(sp: Space<K>, index: seq<Cell>, index': seq<Cell>, keys: seq<K>, m: nat, c: seq<nat>, j: nat)
    requires sp.n > 0 && Chain(sp, index, keys, m, c) && 0 < j < |c| && |index'| == |index| && c[j] < |index|
    requires forall b | b in c && b < |index| && b != c[j] ::
               index'[b] == if b == c[j - 1] then index[b].(next := if index[c[j]].next == c[j] then b else index[c[j]].next)
                            else index[b]
    ensures Chain(sp, index', keys, m, Without(c, j))
  {
    var c' := Without(c, j);
    InWithout(c, j);
    NextIs(sp, index, keys, m, c, j);
    forall i: nat | i < |c'|
      ensures OnChain(sp, index', keys, m, c', i)
    {
      hide Main, SlotOf;
      var x := if i < j then i else i + 1;
      assert c'[i] == c[x] && (i + 1 < |c'| ==> c'[i + 1] == c[if i + 1 < j then i + 1 else i + 2]);
      assert OnChain(sp, index, keys, m, c, x);
      assert c[x] in c;
      SameSlot(sp, index[c[x]], index'[c[x]].next);
    }
  }

  /** Taking a bucket that is not the first off its chain. */
  lemma Unlink<K>(sp: Space<K>, index: seq<Cell>, keys: seq<K>, at: map<nat, nat>, chains: seq<seq<nat>>, m: nat, j: nat)
    requires Forest(sp, index, keys, at, chains) && m < sp.n && m < |chains| && 0 < j < |chains[m]|
    ensures var c := chains[m];
            var b, prev := c[j], c[j - 1];
            && b < sp.n && prev < sp.n && sp.n < |index| && b != prev
            && var next := if index[b].next == b then prev else index[b].next;
               Forest(sp, index[prev := index[prev].(next := next)][b := CLEARED], keys,
                      at - {SlotOf(sp, index[b])}, chains[m := Without(c, j)])
  {
    hide Forest, Chain, OnChain, GoodSize, Main, SlotOf, BitsOf, Holds, Without;
    ForestFacts(sp, index, keys, at, chains);
    var c := chains[m];
    var b, prev := c[j], c[j - 1];
    MemberFilled(sp, index, keys, at, chains, m, b);
    MemberFilled(sp, index, keys, at, chains, m, prev);
    var next := if index[b].next == b then prev else index[b].next;
    var index' := index[prev := index[prev].(next := next)][b := CLEARED];
    var s := SlotOf(sp, index[b]);
    var at', c' := at - {s}, Without(c, j);
    ChainAt(sp, index, keys, at, chains, m);
    DistinctAt(sp, index, keys, m, c, j);
    NextIs(sp, index, keys, m, c, j);
    ChainRemove(sp, index, index', keys, m, c, j);
    ChainDistinct(sp, index, keys, m, c);
    InWithout(c, j);
    assert CLEARED.next < 0;
    forall x | x in at'
      ensures (x in at && at'[x] == at[x] && at[x] !in c) || Holds(sp, index', keys, chains[m := c'], x, at'[x])
    {
      if at[x] in c {
        MemberFilled(sp, index, keys, at, chains, m, at[x]);
        SlotAtIs(sp, index, keys, at, chains, x);
        StillHolds(sp, index, index', keys, at, chains, m, c', x);
      }
    }
    forall x: nat | x < sp.n && index'[x].next >= 0
      ensures (index'[x] == index[x] && x !in c) || (SlotOf(sp, index'[x]) in at' && at'[SlotOf(sp, index'[x])] == x)
    {
      FilledAt(sp, index, keys, at, chains, x);
      SameSlot(sp, index[x], next);
    }
    Rechain(sp, index, index', keys, at, at', chains, m, c');
  }

  lemma ChainDistinct<K>(sp: Space<K>, index: seq<Cell>, keys: seq<K>, m: nat, c: seq<nat>)
    requires sp.n > 0 && Chain(sp, index, keys, m, c)
    ensures Distinct(c)
  {
  }

  /** Taking the only bucket off its chain. */
  lemma UnlinkOnly<K>(sp: Space<K>, index: seq<Cell>, keys: seq<K>, at: map<nat, nat>, chains: seq<seq<nat>>, m: nat)
    requires Forest(sp, index, keys, at, chains) && m < sp.n && m < |chains| && |chains[m]| == 1
    ensures m < |index| && Forest(sp, index[m := CLEARED], keys, at - {SlotOf(sp, index[m])}, chains[m := []])
  {
    hide Forest, Chain, OnChain, GoodSize, Main, SlotOf, BitsOf, Holds;
    ForestFacts(sp, index, keys, at, chains);
    var c := chains[m];
    ChainAt(sp, index, keys, at, chains, m);
    NextIs(sp, index, keys, m, c, 0);
    assert c == [m];
    var index', at' := index[m := CLEARED], at - {SlotOf(sp, index[m])};
    MemberFilled(sp, index, keys, at, chains, m, m);
    NoLinks(sp, index', keys, m);
    assert CLEARED.next < 0;
    forall x | x in at'
      ensures at[x] !in c
    {
      SlotAtIs(sp, index, keys, at, chains, x);
    }
    Rechain(sp, index, index', keys, at, at', chains, m, []);
  }

  lemma NoLinks<K>(sp: Space<K>, index: seq<Cell>, keys: seq<K>, m: nat)
    requires sp.n > 0
    ensures Chain(sp, index, keys, m, [])
  {
  }

  /** Taking the first bucket's pair off a longer chain: the second bucket's contents move to the first. */
  lemma UnlinkHead<K>(sp: Space<K>, index: seq<Cell>, keys: seq<K>, at: map<nat, nat>, chains: seq<seq<nat>>, m: nat)
    requires Forest(sp, index, keys, at, chains) && m < sp.n && m < |chains| && |chains[m]| > 1
    ensures var x := chains[m][1];
            && x < sp.n && sp.n < |index| && x != m
            && var head := Cell(if index[x].next == x then m else index[x].next, index[x].slot);
               Forest(sp, index[m := head][x := CLEARED], keys, (at - {SlotOf(sp, index[m])})[SlotOf(sp, index[x]) := m],
                      chains[m := Without(chains[m], 1)])
  {
    hide Forest, Chain, OnChain, GoodSize, Main, SlotOf, BitsOf, Holds, Without;
    ForestFacts(sp, index, keys, at, chains);
    var c := chains[m];
    var x := c[1];
    ChainAt(sp, index, keys, at, chains, m);
    DistinctAt(sp, index, keys, m, c, 1);
    NextIs(sp, index, keys, m, c, 0);
    NextIs(sp, index, keys, m, c, 1);
    MemberFilled(sp, index, keys, at, chains, m, x);
    MemberFilled(sp, index, keys, at, chains, m, m);
    var head := Cell(if index[x].next == x then m else index[x].next, index[x].slot);
    var index' := index[m := head][x := CLEARED];
    var s, t := SlotOf(sp, index[m]), SlotOf(sp, index[x]);
    var at', c' := (at - {s})[t := m], Without(c, 1);
    ChainBehead(sp, index, index', keys, m, c);
    ChainDistinct(sp, index, keys, m, c);
    InWithout(c, 1);
    assert CLEARED.next < 0;
    assert head == index[x].(next := head.next);
    SameSlot(sp, index[x], head.next);
    HoldsAt(sp, index, keys, at, chains, t);
    HoldsFacts(sp, index, keys, chains, t, x);
    MakeHolds(sp, index', keys, chains[m := c'], t, m);
    forall y | y in at'
      ensures (y in at && at'[y] == at[y] && at[y] !in c) || Holds(sp, index', keys, chains[m := c'], y, at'[y])
    {
      if y != t && at[y] in c {
        MemberFilled(sp, index, keys, at, chains, m, at[y]);
        SlotAtIs(sp, index, keys, at, chains, y);
        StillHolds(sp, index, index', keys, at, chains, m, c', y);
      }
    }
    forall y: nat | y < sp.n && index'[y].next >= 0
      ensures (index'[y] == index[y] && y !in c) || (SlotOf(sp, index'[y]) in at' && at'[SlotOf(sp, index'[y])] == y)
    {
      FilledAt(sp, index, keys, at, chains, y);
    }
    Rechain(sp, index, index', keys, at, at', chains, m, c');
  }

  lemma ChainBehead<K>(sp: Space<K>, index: seq<Cell>, index': seq<Cell>, keys: seq<K>, m: nat, c: seq<nat>)
    requires sp.n > 0 && Chain(sp, index, keys, m, c) && |c| > 1 && |index'| == |index| && c[0] == m && m < sp.n
             && m < |index| && c[1] < |index|
    requires forall b | b in c && b < |index| && b != m && b != c[1] :: index'[b] == index[b]
    requires index'[m] == Cell(if index[c[1]].next == c[1] then m else index[c[1]].next, index[c[1]].slot)
    ensures Chain(sp, index', keys, m, Without(c, 1))
  {
    var c' := Without(c, 1);
    InWithout(c, 1);
    NextIs(sp, index, keys, m, c, 1);
    forall i: nat | i < |c'|
      ensures OnChain(sp, index', keys, m, c', i)
    {
      hide Main, SlotOf;
      assert c'[i] == (if i == 0 then m else c[i + 1]) && (i + 1 < |c'| ==> c'[i + 1] == c[i + 2]);
      assert OnChain(sp, index, keys, m, c, i + 1);
      assert c[i + 1] in c;
      if i == 0 {
        assert index'[m] == index[c[1]].(next := index'[m].next);
        SameSlot(sp, index[c[1]], index'[m].next);
      }
    }
  }

  // ----- renumbering

  lemma ChainRekey<K>(sp: Space<K>, index: seq<Cell>, index': seq<Cell>, keys: seq<K>, keys': seq<K>, m: nat, c: seq<nat>)
    requires sp.n > 0 && Chain(sp, index, keys, m, c) && |index'| == |index|
    requires forall b | b in c && b < |index| :: index'[b].next == index[b].next && SlotOf(sp, index[b]) < |keys|
               && SlotOf(sp, index'[b]) < |keys'| && keys'[SlotOf(sp, index'[b])] == keys[SlotOf(sp, index[b])]
    ensures Chain(sp, index', keys', m, c)
  {
    hide Main, SlotOf;
    forall i: nat | i < |c|
      ensures OnChain(sp, index', keys', m, c, i)
    {
      assert OnChain(sp, index, keys, m, c, i);
      assert c[i] in c;
    }
  }

  /** The pair in the last slot moves to slot `hole`: only its bucket's slot changes. */
  lemma Renumber<K>(sp: Space<K>, index: seq<Cell>, keys: seq<K>, at: map<nat, nat>, chains: seq<seq<nat>>, hole: nat)
    requires Forest(sp, index, keys, at, chains) && hole + 1 < |keys| <= sp.n
    requires forall s: nat :: s in at <==> s < |keys| && s != hole
    ensures var last := |keys| - 1;
            var b := at[last];
            && b < |index| && sp.n > 0
            && Forest(sp, index[b := index[b].(slot := hole + BitsOf(sp, index[b]))], SwapRemove(keys, hole),
                      (at - {last})[hole := b], chains)
            && Covers((at - {last})[hole := b], last)
  {
    hide Forest, Chain, OnChain, GoodSize, Main, SlotOf, BitsOf, Holds, SwapRemove, Packed;
    ForestFacts(sp, index, keys, at, chains);
    var last := |keys| - 1;
    var b := at[last];
    SlotAtIs(sp, index, keys, at, chains, last);
    HoldsAt(sp, index, keys, at, chains, last);
    HoldsFacts(sp, index, keys, chains, last, b);
    SwapRemoveAt(keys, hole);
    var index' := index[b := index[b].(slot := hole + BitsOf(sp, index[b]))];
    var keys', at' := SwapRemove(keys, hole), (at - {last})[hole := b];
    RepackedIs(sp, hole, index[b].slot, index[b].next);
    forall x: nat | x < sp.n && index[x].next >= 0
      ensures SlotOf(sp, index[x]) in at && at[SlotOf(sp, index[x])] == x
      ensures SlotOf(sp, index'[x]) < |keys'| && keys'[SlotOf(sp, index'[x])] == keys[SlotOf(sp, index[x])]
    {
      FilledAt(sp, index, keys, at, chains, x);
    }
    forall m: nat | m < sp.n
      ensures Chain(sp, index', keys', m, chains[m])
    {
      ChainAt(sp, index, keys, at, chains, m);
      forall x | x in chains[m] && x < |index|
        ensures x < sp.n && index[x].next >= 0
      {
        MemberFilled(sp, index, keys, at, chains, m, x);
      }
      ChainRekey(sp, index, index', keys, keys', m, chains[m]);
    }
    forall t | t in at'
      ensures Holds(sp, index', keys', chains, t, at'[t])
    {
      var was := if t == hole then last else t;
      HoldsAt(sp, index, keys, at, chains, was);
      HoldsFacts(sp, index, keys, chains, was, at[was]);
      MakeHolds(sp, index', keys', chains, t, at'[t]);
    }
    MakeForest(sp, index', keys', at', chains);
  }

  lemma RepackedIs<K>(sp: Space<K>, s: nat, slot: nat, next: int)
    requires GoodSize(sp.n) && sp.n > 0 && s < sp.n
    ensures SlotOf(sp, Cell(next, s + BitsOf(sp, Cell(next, slot)))) == s
    ensures BitsOf(sp, Cell(next, s + BitsOf(sp, Cell(next, slot)))) == BitsOf(sp, Cell(next, slot))
  {
    PackedParts(s, slot, sp.n);
  }

  /** Keys of slots that are not stored do not matter. */
  lemma SameStoredKeys<K>(sp: Space<K>, index: seq<Cell>, keys: seq<K>, keys': seq<K>, at: map<nat, nat>,
      chains: seq<seq<nat>>)
    requires Forest(sp, index, keys, at, chains)
    requires forall s | s in at && s < |keys| :: s < |keys'| && keys'[s] == keys[s]
    ensures Forest(sp, index, keys', at, chains)
  {
    hide Forest, Chain, OnChain, GoodSize, Main, SlotOf, BitsOf, Holds;
    ForestFacts(sp, index, keys, at, chains);
    forall m: nat | m < sp.n
      ensures Chain(sp, index, keys', m, chains[m])
    {
      ChainAt(sp, index, keys, at, chains, m);
      forall x | x in chains[m] && x < |index|
        ensures SlotOf(sp, index[x]) in at && SlotOf(sp, index[x]) < |keys|
      {
        MemberFilled(sp, index, keys, at, chains, m, x);
      }
      ChainRekey(sp, index, index, keys, keys', m, chains[m]);
    }
    forall t | t in at
      ensures Holds(sp, index, keys', chains, t, at[t])
    {
      HoldsAt(sp, index, keys, at, chains, t);
      HoldsFacts(sp, index, keys, chains, t, at[t]);
      MakeHolds(sp, index, keys', chains, t, at[t]);
    }
    forall b: nat | b < sp.n && index[b].next >= 0
      ensures SlotOf(sp, index[b]) in at && at[SlotOf(sp, index[b])] == b
    {
      FilledAt(sp, index, keys, at, chains, b);
    }
    MakeForest(sp, index, keys', at, chains);
  }

  // ----- room

  /** When the first `k` buckets are filled, so many slots are stored in them. */
  lemma {:induction false} SlotsOfFilled<K>(sp: Space<K>, index: seq<Cell>, keys: seq<K>, at: map<nat, nat>,
      chains: seq<seq<nat>>, k: nat)
      returns (slots: set<nat>)
    requires Forest(sp, index, keys, at, chains) && k <= sp.n && forall b: nat | b < k :: index[b].next >= 0
    ensures |slots| == k && slots <= at.Keys && forall s | s in slots :: at[s] < k
  {
    if k == 0 {
      slots := {};
    } else {
      slots := SlotsOfFilled(sp, index, keys, at, chains, k - 1);
      FilledAt(sp, index, keys, at, chains, k - 1);
      slots := slots + {SlotOf(sp, index[k - 1])};
    }
  }

  /** A bucket is empty while there are fewer pairs than buckets. */
  lemma EmptyExists<K>(sp: Space<K>, index: seq<Cell>, keys: seq<K>, at: map<nat, nat>,
      chains: seq<seq<nat>>) returns (e: nat)
    requires Forest(sp, index, keys, at, chains) && |at| < sp.n
    ensures e < sp.n && e < |index| && index[e].next < 0
  {
    if forall b: nat | b < sp.n :: index[b].next >= 0 {
      var slots := SlotsOfFilled(sp, index, keys, at, chains, sp.n);
      SubsetSize(slots, at.Keys);
      assert false;
    }
    e :| e < sp.n && index[e].next < 0;
  }

  // ----- searching

  /** None of the first `j` buckets of the chain holds the key. */
  ghost predicate NoneOf<K>(sp: Space<K>, index: seq<Cell>, keys: seq<K>, c: seq<nat>, key: K, j: nat)
    requires sp.n > 0
  {
    forall i: nat | i < j && i < |c| && c[i] < |index|
        && SlotOf(sp, index[c[i]]) < |keys| :: keys[SlotOf(sp, index[c[i]])] != key
  }

  lemma NoneOfMore<K>(sp: Space<K>, index: seq<Cell>, keys: seq<K>, c: seq<nat>, key: K, j: nat)
    requires sp.n > 0 && j < |c| && NoneOf(sp, index, keys, c, key, j)
    requires c[j] < |index| && SlotOf(sp, index[c[j]]) < |keys| ==> keys[SlotOf(sp, index[c[j]])] != key
    ensures NoneOf(sp, index, keys, c, key, j + 1)
  {
  }

  /** A key that is not on its chain is stored nowhere. */
  lemma NoneMeansAbsent<K>(sp: Space<K>, index: seq<Cell>, keys: seq<K>, at: map<nat, nat>, chains: seq<seq<nat>>, key: K)
    requires Forest(sp, index, keys, at, chains)
             && NoneOf(sp, index, keys, chains[Main(sp, key)], key, |chains[Main(sp, key)]|)
    ensures forall s | s in at && s < |keys| :: keys[s] != key
  {
    forall s | s in at && s < |keys|
      ensures keys[s] != key
    {
      HoldsAt(sp, index, keys, at, chains, s);
    }
  }

  lemma OnlyOnce<K>(sp: Space<K>, index: seq<Cell>, keys: seq<K>, m: nat, c: seq<nat>, i: nat, j: nat)
    requires sp.n > 0 && Chain(sp, index, keys, m, c) && i < |c| && j < |c| && c[i] == c[j]
    ensures i == j
  {
  }

  lemma NextIs2<K>(sp: Space<K>, index: seq<Cell>, keys: seq<K>, at: map<nat, nat>, chains: seq<seq<nat>>, m: nat, j: nat)
    requires Forest(sp, index, keys, at, chains) && m < |chains| && j < |chains[m]|
    ensures chains[m][j] < sp.n && chains[m][j] < |index| && index[chains[m][j]].next >= 0
  {
    MemberFilled(sp, index, keys, at, chains, m, chains[m][j]);
  }

  /** The chain of a main bucket that holds one of its own keys. */
  lemma HeadFacts<K>(sp: Space<K>, index: seq<Cell>, keys: seq<K>, at: map<nat, nat>, chains: seq<seq<nat>>, m: nat)
    requires Forest(sp, index, keys, at, chains) && m < sp.n && index[m].next >= 0
    requires SlotOf(sp, index[m]) < |keys| && Main(sp, keys[SlotOf(sp, index[m])]) == m
    ensures m < |chains| && |chains[m]| > 0 && chains[m][0] == m
    ensures index[m].next == if |chains[m]| == 1 then m else chains[m][1]
    ensures |chains[m]| > 1 ==> chains[m][1] != m
  {
    FilledAt(sp, index, keys, at, chains, m);
    NextIs(sp, index, keys, m, chains[m], 0);
  }

  lemma InactiveIs()
    ensures INACTIVE == -1
  {
  }

  lemma ClearedIs()
    ensures CLEARED == Cell(INACTIVE, 0) && INACTIVE == -1
  {
  }

  /** The bucket of a stored slot is not the empty one. */
  lemma BucketIsNot<K>(sp: Space<K>, index: seq<Cell>, keys: seq<K>, at: map<nat, nat>, chains: seq<seq<nat>>,
      s: nat, e: nat)
    requires Forest(sp, index, keys, at, chains) && s in at && e < |index| && index[e].next < 0
    ensures at[s] != e && at[s] < |index| && at[s] < sp.n
  {
    HoldsAt(sp, index, keys, at, chains, s);
  }

  lemma DropLast<K>(sp: Space<K>, index: seq<Cell>, keys: seq<K>, at: map<nat, nat>, chains: seq<seq<nat>>)
    requires Forest(sp, index, keys, at, chains) && |keys| > 0 && Covers(at, |keys| - 1)
    ensures Forest(sp, index, SwapRemove(keys, |keys| - 1), at, chains)
  {
    SameStoredKeys(sp, index, keys, SwapRemove(keys, |keys| - 1), at, chains);
  }

  /** No filled bucket carries the last slot once that is not stored. */
  lemma LastIsGone<K>(sp: Space<K>, index: seq<Cell>, keys: seq<K>, at: map<nat, nat>, chains: seq<seq<nat>>)
    requires Forest(sp, index, keys, at, chains) && |keys| > 0 && Covers(at, |keys| - 1)
    ensures var keys' := SwapRemove(keys, |keys| - 1);
            forall x: nat | x < sp.n && x < |index| && index[x].next >= 0 ::
              SlotOf(sp, index[x]) < |keys'| && keys'[SlotOf(sp, index[x])] == keys[SlotOf(sp, index[x])]
  {
    var keys' := SwapRemove(keys, |keys| - 1);
    forall x: nat | x < sp.n && x < |index| && index[x].next >= 0
      ensures SlotOf(sp, index[x]) < |keys'| && keys'[SlotOf(sp, index[x])] == keys[SlotOf(sp, index[x])]
    {
      FilledAt(sp, index, keys, at, chains, x);
    }
  }

  /** Only the slot's own bucket carries the slot. */
  lemma SlotsOnChain<K>(sp: Space<K>, index: seq<Cell>, keys: seq<K>, at: map<nat, nat>, chains: seq<seq<nat>>, m: nat,
      slot: nat, i: nat, p: nat)
    requires Forest(sp, index, keys, at, chains) && slot in at && m < |chains| && i <= p < |chains[m]|
             && chains[m][p] == at[slot]
    ensures chains[m][i] < |index| && sp.n > 0
    ensures SlotOf(sp, index[chains[m][i]]) == slot <==> i == p
    ensures i == p ==> chains[m][i] == at[slot]
  {
    MemberFilled(sp, index, keys, at, chains, m, chains[m][i]);
    HoldsAt(sp, index, keys, at, chains, slot);
    if SlotOf(sp, index[chains[m][i]]) == slot {
      ChainAt(sp, index, keys, at, chains, m);
      OnlyOnce(sp, index, keys, m, chains[m], i, p);
    }
  }

  lemma NoneOfFirst<K>(sp: Space<K>, index: seq<Cell>, keys: seq<K>, c: seq<nat>, key: K)
    requires sp.n > 0 && |c| > 0
    requires c[0] < |index| && SlotOf(sp, index[c[0]]) < |keys| ==> keys[SlotOf(sp, index[c[0]])] != key
    ensures NoneOf(sp, index, keys, c, key, 1)
  {
  }

  /** A key is on no chain but its own. */
  lemma NoneOfForeign<K>(sp: Space<K>, index: seq<Cell>, keys: seq<K>, at: map<nat, nat>, chains: seq<seq<nat>>,
      m: nat, key: K)
    requires Forest(sp, index, keys, at, chains) && m < |chains| && m != Main(sp, key)
    ensures forall j: nat :: NoneOf(sp, index, keys, chains[m], key, j)
  {
    forall i: nat | i < |chains[m]|
      ensures chains[m][i] < |index| && SlotOf(sp, index[chains[m][i]]) < |keys|
              && keys[SlotOf(sp, index[chains[m][i]])] != key
    {
      MemberFilled(sp, index, keys, at, chains, m, chains[m][i]);
    }
  }

  lemma NoteNot(c: seq<nat>, i: nat, j: nat, b: nat)
    requires i <= j < |c| && c[j] == b && c[i] != b
    ensures i < j
  {
  }

  /** Where on its chain a filled bucket lies. */
  lemma PlaceOnChain<K>(sp: Space<K>, index: seq<Cell>, keys: seq<K>, at: map<nat, nat>, chains: seq<seq<nat>>, b: nat)
      returns (j: nat)
    requires Forest(sp, index, keys, at, chains) && b < sp.n && b < |index| && index[b].next >= 0
    ensures SlotOf(sp, index[b]) in at && at[SlotOf(sp, index[b])] == b && SlotOf(sp, index[b]) < |keys|
    ensures var m := Main(sp, keys[SlotOf(sp, index[b])]);
            m < |chains| && j < |chains[m]| && chains[m][j] == b && (m != b ==> j > 0)
            && Chain(sp, index, keys, m, chains[m])
  {
    FilledAt(sp, index, keys, at, chains, b);
    var m := Main(sp, keys[SlotOf(sp, index[b])]);
    j :| 0 <= j < |chains[m]| && chains[m][j] == b;
    LinkAt(sp, index, keys, at, chains, m, j);
  }

  /** `n` doubled until it is no less than `required`. */
  function Doubled(n: nat, required: nat): (r: nat)
    requires n > 0
    ensures required <= r
    decreases required - n
  {
    if n >= required then n else Doubled(2 * n, required)
  }

  /** The buckets that a rehash settles on: doubled from 2 or 4, or from 2^16 when there are more pairs than that. */
  function BucketsFor(least: nat, filled: nat, required: nat): (r: nat)
    requires least > 0
    ensures required <= r
  {
    Doubled(if filled > 0x1_0000 then 0x1_0000 else least, required)
  }

  lemma {:induction false} DoubledPower(p: nat, q: nat)
    requires p <= q
    ensures Doubled(Pow2(p), Pow2(q)) == Pow2(q)
    decreases q - p
  {
    if p < q {
      Pow2Monotone(p + 1, q);
      DoubledPower(p + 1, q);
    }
  }

  /** Asking for the buckets there are gives as many. */
  lemma SameBuckets(least: nat, n: nat, filled: nat)
    requires least in {2, 4} && GoodSize(n) && least <= n && filled <= n
    ensures BucketsFor(least, filled, n) == n
  {
    var p: nat :| 1 <= p <= 31 && n == Pow2(p);
    WordPowers();
    var q := if filled > 0x1_0000 then 16 else least / 2;
    if p < q {
      Pow2Monotone(p + 1, q);
    }
    DoubledPower(q, p);
  }

  /** The power of two that holds `required` buckets. */
  method BucketCount(least: nat, filled: nat, required: nat) returns (n: nat)
    requires least in {2, 4} && filled <= required < MAX_BUCKETS
    ensures GoodSize(n) && required <= n && n == BucketsFor(least, filled, required)
    ensures least <= n && (n == (if filled > 0x1_0000 then 0x1_0000 else least) || n / 2 < required)
  {
    n := if filled > 0x1_0000 then 0x1_0000 else least;
    ghost var p: nat := if filled > 0x1_0000 then 16 else least / 2;
    assert n == Pow2(p) by {
      assert Pow2(1) == 2 && Pow2(2) == 4;
      assert Pow2(4) == 16;
      Pow2Sum(4, 4);
      Pow2Sum(8, 8);
    }
    while n < required
      invariant 1 <= p <= 31 && n == Pow2(p)
      invariant least <= n && (n == (if filled > 0x1_0000 then 0x1_0000 else least) || n / 2 < required)
      invariant Doubled(n, required) == BucketsFor(least, filled, required)
      decreases required - n
    {
      if p == 31 {
        WordPowers();
        assert false;
      }
      n := n * 2;
      p := p + 1;
    }
  }

  /** Renumbering changes no links, and every bucket still holds its key. */
  lemma RenumberKeys<K>(sp: Space<K>, index: seq<Cell>, keys: seq<K>, at: map<nat, nat>, chains: seq<seq<nat>>, hole: nat)
    requires Forest(sp, index, keys, at, chains) && hole + 1 < |keys| <= sp.n
    requires forall s: nat :: s in at <==> s < |keys| && s != hole
    ensures var last := |keys| - 1;
            var b := at[last];
            && b < |index| && sp.n > 0
            && var index' := index[b := index[b].(slot := hole + BitsOf(sp, index[b]))];
               forall x: nat | x < sp.n && x < |index| && index[x].next >= 0 ::
                 && SlotOf(sp, index'[x]) < |SwapRemove(keys, hole)| && SlotOf(sp, index[x]) < |keys|
                 && SwapRemove(keys, hole)[SlotOf(sp, index'[x])] == keys[SlotOf(sp, index[x])]
  {
    hide Forest, GoodSize, SlotOf, BitsOf, SwapRemove, Chain, Holds;
    ForestFacts(sp, index, keys, at, chains);
    var last := |keys| - 1;
    var b := at[last];
    SlotAtIs(sp, index, keys, at, chains, last);
    SwapRemoveAt(keys, hole);
    RepackedIs(sp, hole, index[b].slot, index[b].next);
    var index' := index[b := index[b].(slot := hole + BitsOf(sp, index[b]))];
    forall x: nat | x < sp.n && x < |index| && index[x].next >= 0
      ensures SlotOf(sp, index'[x]) < |SwapRemove(keys, hole)| && SlotOf(sp, index[x]) < |keys|
      ensures SwapRemove(keys, hole)[SlotOf(sp, index'[x])] == keys[SlotOf(sp, index[x])]
    {
      FilledAt(sp, index, keys, at, chains, x);
    }
  }

  /** The main bucket of a key, when filled, is the first of the key's chain or lies on another chain. */
  lemma LookAt<K>(sp: Space<K>, index: seq<Cell>, keys: seq<K>, at: map<nat, nat>, chains: seq<seq<nat>>, key: K)
      returns (m: nat, j: nat)
    requires Forest(sp, index, keys, at, chains) && index[Main(sp, key)].next >= 0
    ensures var b := Main(sp, key);
            && SlotOf(sp, index[b]) in at && SlotOf(sp, index[b]) < |keys| && m == Main(sp, keys[SlotOf(sp, index[b])])
            && m < |chains| && j < |chains[m]| && chains[m][j] == b && NoneOf(sp, index, keys, chains[m], key, j)
            && b < |chains| && (if m == b then j == 0 else chains[b] == [])
  {
    hide Forest, Chain, SlotOf, BitsOf;
    var b := Main(sp, key);
    ForestFacts(sp, index, keys, at, chains);
    j := PlaceOnChain(sp, index, keys, at, chains, b);
    m := Main(sp, keys[SlotOf(sp, index[b])]);
    if m == b {
      HeadFacts(sp, index, keys, at, chains, b);
      OnlyOnce(sp, index, keys, m, chains[m], 0, j);
    } else {
      NoChain(sp, index, keys, at, chains, b);
      NoneOfForeign(sp, index, keys, at, chains, m, key);
    }
  }
}
