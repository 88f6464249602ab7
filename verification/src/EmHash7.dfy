/** The emhash7 hash map: chains threaded through the pairs in place, and a bitmask of the empty buckets. The chains are
    those of `ChainForest`, with the stored keys numbered in ghost state. */
module EmHash7 {
  import opened Arithmetic
  import opened Entries
  import opened Bags
  import opened DenseValues
  import opened LaneMasks
  import opened ChainForest
  import opened Bitmask

  datatype Pair<K, V> = Pair(entry: Entry<K, V>, next: nat)

  /** `_mlf` of a load factor of one. */
  const LOAD_UNIT: nat := 0x1000_0000

  function EntriesOf<K, V>(pairs: seq<Option<Pair<K, V>>>): (r: seq<Option<Entry<K, V>>>)
    ensures |r| == |pairs|
    ensures forall b | 0 <= b < |r| :: r[b] == if pairs[b].Some? then Some(pairs[b].value.entry) else None
  {
    seq(|pairs|, b requires 0 <= b < |pairs| => if pairs[b].Some? then Some(pairs[b].value.entry) else None)
  }

  /** Bucket `b` holds what the forest says. */
  ghost predicate AgreeAt<K, V>(sp: Space<K>, index: seq<Cell>, keys: seq<K>, pairs: seq<Option<Pair<K, V>>>, b: nat)
    requires sp.n > 0
  {
    && b < |index| && b < |pairs|
    && (pairs[b].Some? <==> index[b].next >= 0)
    && (pairs[b].Some? ==> pairs[b].value.next == index[b].next && SlotOf(sp, index[b]) < |keys|
                           && keys[SlotOf(sp, index[b])] == pairs[b].value.entry.key)
  }

  ghost predicate Agreement<K, V>(sp: Space<K>, index: seq<Cell>, keys: seq<K>, pairs: seq<Option<Pair<K, V>>>, but: int) {
    && sp.n > 0 && |pairs| == sp.n && |index| == sp.n + 2
    && forall b: nat | b < sp.n && b != but :: AgreeAt(sp, index, keys, pairs, b)
  }

  ghost predicate MaskOf<K, V>(bits: seq<bool>, pairs: seq<Option<Pair<K, V>>>, n: nat, but: int) {
    && Padded(bits, n) && n <= |bits| && |pairs| == n && WordsOrLess(n)
    && forall b: nat | b < n && b != but :: bits[b] <==> pairs[b].None?
  }

  // ----- what the steps of the operations keep of the agreement and the bitmask

  lemma AgreeAfterMove<K, V>(sp: Space<K>, index: seq<Cell>, keys: seq<K>, pairs: seq<Option<Pair<K, V>>>, e: nat,
      prev: nat, b: nat, next: nat)
    requires Agreement(sp, index, keys, pairs, -1) && e < sp.n && prev < sp.n && b < sp.n && e != prev && e != b && prev != b
    requires pairs[prev].Some? && pairs[b].Some?
    ensures Agreement(sp, index[e := Cell(next,
            index[b].slot)][prev := index[prev].(next := e)][b := index[b].(next := INACTIVE)], keys,
                      pairs[e := Some(pairs[b].value.(next := next))][prev := Some(pairs[prev].value.(next := e))][b := None], -1)
  {
    var index' := index[e := Cell(next, index[b].slot)][prev := index[prev].(next := e)][b := index[b].(next := INACTIVE)];
    var pairs' := pairs[e := Some(pairs[b].value.(next := next))][prev := Some(pairs[prev].value.(next := e))][b := None];
    forall x: nat | x < sp.n
      ensures AgreeAt(sp, index', keys, pairs', x)
    {
      hide SlotOf;
      assert AgreeAt(sp, index, keys, pairs, x) && AgreeAt(sp, index, keys, pairs, b);
      SameSlot(sp, index[x], e);
      SameSlot(sp, index[b], next);
      assert index[b].(next := next) == Cell(next, index[b].slot);
    }
  }

  lemma ContentsAfterMove<K, V>(pairs: seq<Option<Pair<K, V>>>, e: nat, prev: nat, b: nat, next: nat)
    requires e < |pairs| && prev < |pairs| && b < |pairs| && e != prev && e != b && prev != b
    requires pairs[prev].Some? && pairs[b].Some? && pairs[e].None?
    ensures Gather(EntriesOf(pairs[e := Some(pairs[b].value.(next := next))][prev := Some(pairs[prev].value.(next := e))][b := None]))
            == Gather(EntriesOf(pairs))
  {
    var pairs' := pairs[e := Some(pairs[b].value.(next := next))][prev := Some(pairs[prev].value.(next := e))][b := None];
    assert EntriesOf(pairs') == EntriesOf(pairs)[e := EntriesOf(pairs)[b]][b := None];
    GatherMove(EntriesOf(pairs), b, e);
  }

  lemma MaskAfterMove<K, V>(bits: seq<bool>, pairs: seq<Option<Pair<K, V>>>, pairs': seq<Option<Pair<K, V>>>, n: nat,
      e: nat, b: nat)
    requires MaskOf(bits, pairs, n, -1) && e < n && |pairs'| == n && pairs'[e].Some?
    requires forall x: nat | x < n && x != e && x != b :: pairs'[x].None? == pairs[x].None?
    ensures MaskOf(bits[e := false], pairs', n, b)
  {
  }

  /** A numbered key in an empty bucket whose pair is to come. */
  lemma AgreeAfterStore<K, V>(sp: Space<K>, index: seq<Cell>, keys: seq<K>, pairs: seq<Option<Pair<K, V>>>, b: nat,
      cell: Cell, key: K)
    requires Agreement(sp, index, keys, pairs, -1) && b < sp.n
    ensures Agreement(sp, index[b := cell], keys + [key], pairs, b)
  {
    var index', keys' := index[b := cell], keys + [key];
    forall x: nat | x < sp.n && x != b
      ensures AgreeAt(sp, index', keys', pairs, x)
    {
      hide SlotOf;
      assert AgreeAt(sp, index, keys, pairs, x);
    }
  }

  lemma AgreeAfterLink<K, V>(sp: Space<K>, index: seq<Cell>, keys: seq<K>, pairs: seq<Option<Pair<K, V>>>, t: nat, b: nat)
    requires Agreement(sp, index, keys, pairs, -1) && t < sp.n && pairs[t].Some?
    ensures Agreement(sp, index[t := index[t].(next := b)], keys, pairs[t := Some(pairs[t].value.(next := b))], -1)
  {
    var index', pairs' := index[t := index[t].(next := b)], pairs[t := Some(pairs[t].value.(next := b))];
    forall x: nat | x < sp.n
      ensures AgreeAt(sp, index', keys, pairs', x)
    {
      hide SlotOf;
      assert AgreeAt(sp, index, keys, pairs, x);
      SameSlot(sp, index[x], b);
    }
  }

  lemma SameNext<K, V>(pairs: seq<Option<Pair<K, V>>>, t: nat, b: nat, bits: seq<bool>, n: nat)
    requires t < |pairs| && pairs[t].Some? && MaskOf(bits, pairs, n, -1)
    ensures EntriesOf(pairs[t := Some(pairs[t].value.(next := b))]) == EntriesOf(pairs)
    ensures MaskOf(bits, pairs[t := Some(pairs[t].value.(next := b))], n, -1)
  {
  }

  lemma MaskWeaker<K, V>(bits: seq<bool>, pairs: seq<Option<Pair<K, V>>>, n: nat, b: nat)
    requires MaskOf(bits, pairs, n, -1)
    ensures MaskOf(bits, pairs, n, b)
  {
  }

  lemma AgreeAfterPut<K, V>(sp: Space<K>, index: seq<Cell>, keys: seq<K>, pairs: seq<Option<Pair<K, V>>>, b: nat,
      e: Entry<K, V>)
    requires Agreement(sp, index, keys, pairs, b) && b < sp.n && index[b].next == b
    requires SlotOf(sp, index[b]) < |keys| && keys[SlotOf(sp, index[b])] == e.key
    ensures Agreement(sp, index, keys, pairs[b := Some(Pair(e, b))], -1)
  {
    var pairs' := pairs[b := Some(Pair(e, b))];
    forall x: nat | x < sp.n
      ensures AgreeAt(sp, index, keys, pairs', x)
    {
      hide SlotOf;
      if x != b {
        assert AgreeAt(sp, index, keys, pairs, x);
      }
    }
  }

  lemma MaskAfterPut<K, V>(bits: seq<bool>, pairs: seq<Option<Pair<K, V>>>, n: nat, b: nat, p: Pair<K, V>)
    requires MaskOf(bits, pairs, n, b) && b < n
    ensures MaskOf(bits[b := false], pairs[b := Some(p)], n, -1)
  {
  }

  lemma ContentsAfterPut<K, V>(pairs: seq<Option<Pair<K, V>>>, b: nat, p: Pair<K, V>)
    requires b < |pairs| && pairs[b].None?
    ensures Gather(EntriesOf(pairs[b := Some(p)])) == Gather(EntriesOf(pairs)) + multiset{p.entry}
    ensures |Gather(EntriesOf(pairs)) + multiset{p.entry}| == |Gather(EntriesOf(pairs))| + 1
  {
    assert EntriesOf(pairs[b := Some(p)]) == EntriesOf(pairs)[b := Some(p.entry)];
    GatherUpdate(EntriesOf(pairs), b, Some(p.entry));
  }

  lemma ContentsAfterTake<K, V>(pairs: seq<Option<Pair<K, V>>>, e: nat)
    requires e < |pairs| && pairs[e].Some?
    ensures Gather(EntriesOf(pairs[e := None])) + multiset{pairs[e].value.entry} == Gather(EntriesOf(pairs))
  {
    assert EntriesOf(pairs[e := None]) == EntriesOf(pairs)[e := None];
    GatherUpdate(EntriesOf(pairs), e, None);
  }

  /** The second pair of a chain copied over the first, and its bucket emptied. */
  lemma ContentsAfterCopy<K, V>(pairs: seq<Option<Pair<K, V>>>, b: nat, x: nat, next: nat)
    requires b < |pairs| && x < |pairs| && b != x && pairs[b].Some? && pairs[x].Some?
    ensures Gather(EntriesOf(pairs[b := Some(pairs[x].value.(next := next))][x := None])) + multiset{pairs[b].value.entry}
            == Gather(EntriesOf(pairs))
  {
    var e := EntriesOf(pairs);
    var holed: seq<Option<Entry<K, V>>> := e[b := None];
    assert EntriesOf(pairs[b := Some(pairs[x].value.(next := next))][x := None]) == holed[b := holed[x]][x := None];
    GatherMove(holed, x, b);
    GatherUpdate(e, b, None);
  }

  lemma ContentsAfterRelink<K, V>(pairs: seq<Option<Pair<K, V>>>, prev: nat, b: nat, next: nat)
    requires prev < |pairs| && b < |pairs| && prev != b && pairs[prev].Some? && pairs[b].Some?
    ensures Gather(EntriesOf(pairs[prev := Some(pairs[prev].value.(next := next))][b := None])) + multiset{pairs[b].value.entry}
            == Gather(EntriesOf(pairs))
  {
    var relinked := pairs[prev := Some(pairs[prev].value.(next := next))];
    assert EntriesOf(relinked) == EntriesOf(pairs);
    ContentsAfterTake(relinked, b);
  }

  lemma AgreeAfterCopy<K, V>(sp: Space<K>, index: seq<Cell>, keys: seq<K>, pairs: seq<Option<Pair<K, V>>>, b: nat,
      x: nat, next: nat)
    requires Agreement(sp, index, keys, pairs, -1) && b < sp.n && x < sp.n && b != x && pairs[b].Some? && pairs[x].Some?
    ensures Agreement(sp, index[b := Cell(next, index[x].slot)][x := CLEARED], keys,
            pairs[b := Some(pairs[x].value.(next := next))], x)
  {
    var index', pairs' := index[b := Cell(next, index[x].slot)][x := CLEARED],
        pairs[b := Some(pairs[x].value.(next := next))];
    forall y: nat | y < sp.n && y != x
      ensures AgreeAt(sp, index', keys, pairs', y)
    {
      hide SlotOf;
      assert AgreeAt(sp, index, keys, pairs, y) && AgreeAt(sp, index, keys, pairs, x);
      SameSlot(sp, index[x], next);
      assert index[x].(next := next) == Cell(next, index[x].slot);
    }
  }

  lemma AgreeAfterRelink<K, V>(sp: Space<K>, index: seq<Cell>, keys: seq<K>, pairs: seq<Option<Pair<K, V>>>,
      prev: nat, b: nat, next: nat)
    requires Agreement(sp, index, keys, pairs, -1) && prev < sp.n && b < sp.n && prev != b && pairs[prev].Some?
    ensures Agreement(sp, index[prev := index[prev].(next := next)][b := CLEARED], keys,
                      pairs[prev := Some(pairs[prev].value.(next := next))], b)
  {
    AgreeAfterLink(sp, index, keys, pairs, prev, next);
    var index1, pairs' := index[prev := index[prev].(next := next)], pairs[prev := Some(pairs[prev].value.(next := next))];
    var index' := index1[b := CLEARED];
    forall y: nat | y < sp.n && y != b
      ensures AgreeAt(sp, index', keys, pairs', y)
    {
      hide SlotOf;
      assert AgreeAt(sp, index1, keys, pairs', y);
    }
  }

  lemma AgreeAfterClear<K, V>(sp: Space<K>, index: seq<Cell>, keys: seq<K>, pairs: seq<Option<Pair<K, V>>>, b: nat)
    requires Agreement(sp, index, keys, pairs, -1) && b < sp.n
    ensures Agreement(sp, index[b := CLEARED], keys, pairs, b)
  {
    var index' := index[b := CLEARED];
    forall y: nat | y < sp.n && y != b
      ensures AgreeAt(sp, index', keys, pairs, y)
    {
      hide SlotOf;
      assert AgreeAt(sp, index, keys, pairs, y);
    }
  }

  /** Other numbers for the keys in the buckets do not matter. */
  lemma AgreeAfterRenumber<K, V>(sp: Space<K>, index: seq<Cell>, index': seq<Cell>, keys: seq<K>, keys': seq<K>,
      pairs: seq<Option<Pair<K, V>>>, e: nat)
    requires Agreement(sp, index, keys, pairs, e) && |index'| == |index|
    requires forall x: nat | x < sp.n :: index'[x].next == index[x].next
    requires forall x: nat | x < sp.n && index[x].next >= 0 && SlotOf(sp, index[x]) < |keys| ::
               SlotOf(sp, index'[x]) < |keys'| && keys'[SlotOf(sp, index'[x])] == keys[SlotOf(sp, index[x])]
    ensures Agreement(sp, index', keys', pairs, e)
  {
    forall x: nat | x < sp.n && x != e
      ensures AgreeAt(sp, index', keys', pairs, x)
    {
      hide SlotOf;
      assert AgreeAt(sp, index, keys, pairs, x);
    }
  }

  lemma AgreeAfterEmptying<K, V>(sp: Space<K>, index: seq<Cell>, keys: seq<K>, pairs: seq<Option<Pair<K, V>>>, b: nat)
    requires Agreement(sp, index, keys, pairs, b) && b < sp.n && index[b].next < 0
    ensures Agreement(sp, index, keys, pairs[b := None], -1)
  {
    var pairs' := pairs[b := None];
    forall y: nat | y < sp.n
      ensures AgreeAt(sp, index, keys, pairs', y)
    {
      hide SlotOf;
      if y != b {
        assert AgreeAt(sp, index, keys, pairs, y);
      }
    }
  }

  lemma MaskAfterEmptying<K, V>(bits: seq<bool>, pairs: seq<Option<Pair<K, V>>>, n: nat, b: nat)
    requires MaskOf(bits, pairs, n, -1) && b < n
    ensures MaskOf(bits[b := true], pairs[b := None], n, -1)
  {
  }

  lemma MaskSame<K, V>(bits: seq<bool>, pairs: seq<Option<Pair<K, V>>>, pairs': seq<Option<Pair<K, V>>>, n: nat)
    requires MaskOf(bits, pairs, n, -1) && |pairs'| == |pairs|
             && forall b | 0 <= b < |pairs| :: pairs'[b].None? == pairs[b].None?
    ensures MaskOf(bits, pairs', n, -1)
  {
  }

  class Map<K(==), V> {
    const hash: K -> Word64
    var pairs: seq<Option<Pair<K, V>>>
    var bits: seq<bool>
    var numBuckets: nat
    var numFilled: nat
    var last: nat
    var mlf: nat
    /** The forest of the stored keys, which are numbered. */
    ghost var index: seq<Cell>
    ghost var keys: seq<K>
    ghost var at: map<nat, nat>
    ghost var chains: seq<seq<nat>>

    ghost function Sp(): Space<K>
      reads `numBuckets
    {
      Space(hash, numBuckets)
    }

    ghost function Contents(): multiset<Entry<K, V>>
      reads `pairs
    {
      Gather(EntriesOf(pairs))
    }

    ghost predicate Woven()
      reads `index, `keys, `at, `chains, `numBuckets
    {
      Forest(Sp(), index, keys, at, chains) && Covers(at, |keys|) && |keys| <= numBuckets
    }

    /** The pairs, except in a bucket that is being filled or emptied, are those of the forest. */
    ghost predicate Agrees(but: int)
      reads `index, `keys, `pairs, `numBuckets
    {
      Agreement(Sp(), index, keys, pairs, but)
    }

    /** A bit is clear if and only if its bucket is filled; the bits past the buckets are clear. */
    ghost predicate Masked(but: int)
      reads `bits, `pairs, `numBuckets
    {
      MaskOf(bits, pairs, numBuckets, but)
    }

    ghost predicate Valid()
      reads this
    {
      && Woven() && Agrees(-1) && Masked(-1) && Unique(Contents())
      && numFilled == |keys| == |Contents()| && last <= LastWord(numBuckets)
    }

    /** There is an empty bucket, or `reserve` makes the next insertion grow. */
    predicate Room()
      reads `numFilled, `numBuckets, `mlf
    {
      numFilled < numBuckets || Needed(numFilled, mlf) >= numBuckets
    }

    /** With a load factor in range there always is room. */
    lemma RoomBelowOne()
      requires Valid() && LOAD_UNIT <= mlf
      ensures Room()
    {
      NeededIsEnough(numFilled, mlf);
    }

    /** With one that was out of range a full table has none. */
    lemma RejectedFactorHasNone()
      requires numFilled == numBuckets > 0 && mlf == REJECTED_MLF
      ensures !Room()
    {
      RejectedFactorFills(numBuckets);
    }

    lemma ValidFacts()
      requires Valid()
      ensures Woven() && Agrees(-1) && Masked(-1) && Unique(Contents())
      ensures numBuckets > 0 && numFilled == |keys| == |Contents()| && last <= LastWord(numBuckets)
    {
    }

    lemma Facts()
      requires Woven()
      ensures Forest(Sp(), index, keys, at, chains) && Covers(at, |keys|) && |keys| <= numBuckets && |at| == |keys|
      ensures Sp().n == numBuckets && Sp().hash == hash && GoodSize(numBuckets) && 2 <= numBuckets <= MAX_BUCKETS
      ensures |index| == numBuckets + 2 && |chains| == numBuckets
    {
      ForestFacts(Sp(), index, keys, at, chains);
      CoversSize(at, |keys|);
    }

    lemma AgreeFacts(but: int, b: nat)
      requires Agrees(but) && b < numBuckets && b != but
      ensures Agreement(Sp(), index, keys, pairs, but)
      ensures |pairs| == numBuckets && b < |index| && |index| == numBuckets + 2
      ensures pairs[b].Some? <==> index[b].next >= 0
      ensures pairs[b].Some? ==> pairs[b].value.next == index[b].next && SlotOf(Sp(), index[b]) < |keys|
                                 && keys[SlotOf(Sp(), index[b])] == pairs[b].value.entry.key
    {
      assert AgreeAt(Sp(), index, keys, pairs, b);
    }

    lemma MaskFacts(but: int)
      requires Masked(but)
      ensures MaskOf(bits, pairs, numBuckets, but)
      ensures Padded(bits, numBuckets) && numBuckets <= |bits| && |pairs| == numBuckets && WordsOrLess(numBuckets)
      ensures forall b: nat | b < numBuckets && b != but :: bits[b] <==> pairs[b].None?
    {
    }

    function MainOf(key: K): (m: nat)
      requires numBuckets > 0
      reads `numBuckets
      ensures m < numBuckets
    {
      Low(hash(key), numBuckets)
    }

    lemma MainIs(key: K)
      requires numBuckets > 0
      ensures MainOf(key) == Main(Sp(), key)
    {
    }

    // ----- the bitmask

    /** The first empty bucket shown by the 64 bits around `from`, or else by the next word, counted from `_last`, or the
        word half the table away from it, that shows one. */
    method FindEmptyBucket(from: nat) returns (b: nat)
      requires Masked(-1) && from < numBuckets && last <= LastWord(numBuckets) && GoodSize(numBuckets)
      requires exists e: nat :: e < numBuckets && e < |bits| && bits[e]
      modifies `last
      ensures b < numBuckets && b < |pairs| && pairs[b].None? && last <= LastWord(numBuckets)
    {
      hide *;
      MaskFacts(-1);
      ghost var e: nat :| e < numBuckets && bits[e];
      ByteFits(bits, numBuckets, from);
      var boset := from % 8;
      var bmask := Window(bits, from, 64 - boset);
      if bmask != {} {
        SetInside(bits, numBuckets, from + TrailingZeroCount(bmask));
        return from + TrailingZeroCount(bmask);
      }
      b := FindInWords();
    }

    method FindInWords() returns (b: nat)
      requires Masked(-1) && numBuckets > 0 && last <= LastWord(numBuckets) && GoodSize(numBuckets)
      requires exists e: nat :: e < numBuckets && e < |bits| && bits[e]
      modifies `last
      ensures b < numBuckets && b < |pairs| && pairs[b].None? && last <= LastWord(numBuckets)
    {
      hide *;
      MaskFacts(-1);
      ghost var e: nat :| e < numBuckets && bits[e];
      var qmask := LastWord(numBuckets);
      ghost var w := WordOf(e);
      InItsWord(bits, numBuckets, e);
      while true
        invariant last <= qmask + 1
        decreases if last <= w then w - last else qmask + 1 + w - last
      {
        CycleWords(last, qmask, numBuckets);
        last := BitAnd(last, qmask);
        var first := FirstInWord(last);
        if first.Some? { return first.value; }
        BitAndBelow(qmask / 2 + last, qmask);
        var next1 := BitAnd(qmask / 2 + last, qmask);
        first := FirstInWord(next1);
        if first.Some? {
          last := next1;
          return first.value;
        }
        last := last + 1;
      }
    }

    /** The first empty bucket a word shows. */
    method FirstInWord(l: nat) returns (b: Option<nat>)
      requires Masked(-1) && numBuckets > 0 && l <= LastWord(numBuckets)
      ensures b.Some? ==> b.value < numBuckets && b.value < |pairs| && pairs[b.value].None?
      ensures l * 64 + 64 <= |bits| && (b.None? ==> Word(bits, l * 64) == {})
    {
      hide *;
      MaskFacts(-1);
      WordInside(bits, numBuckets, l);
      var bmask := Word(bits, l * 64);
      if bmask == {} { return None; }
      SetInside(bits, numBuckets, l * 64 + TrailingZeroCount(bmask));
      return Some(l * 64 + TrailingZeroCount(bmask));
    }

    // ----- walking chains

    method FindPrevBucket(main: nat, bucket: nat, ghost j: nat) returns (prev: nat)
      requires Woven() && Agrees(-1) && main < |chains| && 0 < j < |chains[main]| && chains[main][j] == bucket
      ensures prev == chains[main][j - 1]
    {
      hide *;
      Facts();
      ghost var c: seq<nat> := chains[main];
      ChainAt(Sp(), index, keys, at, chains, main);
      NextIs(Sp(), index, keys, main, c, 0);
      AgreeFacts(-1, c[0]);
      var next := pairs[main].value.next;
      if next == bucket {
        OnlyOnce(Sp(), index, keys, main, c, 1, j);
        return main;
      }
      ghost var i: nat := 1;
      NoteNot(c, 1, j, bucket);
      while true
        invariant 1 <= i < j && next == c[i]
        decreases j - i
      {
        NextIs(Sp(), index, keys, main, c, i);
        NextIs2(Sp(), index, keys, at, chains, main, i);
        AgreeFacts(-1, next);
        var nbucket := pairs[next].value.next;
        if nbucket == bucket {
          OnlyOnce(Sp(), index, keys, main, c, i + 1, j);
          return next;
        }
        NoteNot(c, i + 1, j, bucket);
        next := nbucket;
        i := i + 1;
      }
    }

    /** The end of the chain, from its `i`-th bucket on. */
    method FindLastBucket(bucket: nat, ghost main: nat, ghost i: nat) returns (tail: nat)
      requires Woven() && Agrees(-1) && main < |chains| && i < |chains[main]| && chains[main][i] == bucket
      ensures tail == chains[main][|chains[main]| - 1]
    {
      hide *;
      Facts();
      ghost var c: seq<nat> := chains[main];
      ChainAt(Sp(), index, keys, at, chains, main);
      var next := bucket;
      ghost var j := i;
      while true
        invariant i <= j < |c| && next == c[j]
        decreases |c| - j
      {
        NextIs(Sp(), index, keys, main, c, j);
        NextIs2(Sp(), index, keys, at, chains, main, j);
        AgreeFacts(-1, next);
        var nbucket := pairs[next].value.next;
        if nbucket == next { return next; }
        next := nbucket;
        j := j + 1;
      }
    }

    /** Looks for the key from the `i`-th bucket of a chain on: its bucket with the one before it, or the end of the chain. */
    method FindFrom(key: K, from: nat, before: nat, ghost m: nat, ghost i: nat) returns (found: bool, b: nat,
        prev: nat, ghost p: nat)
      requires Woven() && Agrees(-1) && m < |chains| && i < |chains[m]| && from == chains[m][i]
      requires numBuckets > 0 && NoneOf(Sp(), index, keys, chains[m], key, i)
      ensures i <= p < |chains[m]| && b == chains[m][p] && b < |pairs| && pairs[b].Some? && b < |index|
              && index[b].next >= 0 && b < numBuckets
      ensures found ==> pairs[b].value.entry.key == key && (if p == i then prev == before else prev == chains[m][p - 1])
      ensures !found ==> p == |chains[m]| - 1 && NoneOf(Sp(), index, keys, chains[m], key, |chains[m]|)
    {
      hide *;
      Facts();
      ghost var c: seq<nat> := chains[m];
      ChainAt(Sp(), index, keys, at, chains, m);
      b, prev := from, before;
      p := i;
      while true
        invariant i <= p < |c| && b == c[p] && NoneOf(Sp(), index, keys, c, key, p)
        invariant if p == i then prev == before else prev == c[p - 1]
        decreases |c| - p
      {
        NextIs(Sp(), index, keys, m, c, p);
        NextIs2(Sp(), index, keys, at, chains, m, p);
        AgreeFacts(-1, b);
        if pairs[b].value.entry.key == key { return true, b, prev, p; }
        NoneOfMore(Sp(), index, keys, c, key, p);
        var nbucket := pairs[b].value.next;
        if nbucket == b { return false, b, prev, p; }
        prev, b := b, nbucket;
        p := p + 1;
      }
    }

    /** No bucket holds the key. */
    lemma AbsentHere(key: K)
      requires Woven() && Agrees(-1) && numBuckets > 0 && MainOf(key) < |chains|
      requires chains[MainOf(key)] == [] || NoneOf(Sp(), index, keys, chains[MainOf(key)], key, |chains[MainOf(key)]|)
      ensures !Bags.HasKey(Contents(), key)
    {
      hide Forest, Covers;
      NoneMeansAbsent(Sp(), index, keys, at, chains, key);
      forall e | e in Contents()
        ensures e.key != key
      {
        var b := GatherMember(EntriesOf(pairs), e);
        assert AgreeAt(Sp(), index, keys, pairs, b);
        FilledAt(Sp(), index, keys, at, chains, b);
      }
    }

    lemma PresentHere(b: nat, key: K)
      requires b < |pairs| && pairs[b].Some? && pairs[b].value.entry.key == key
      ensures Bags.HasKey(Contents(), key) && pairs[b].value.entry in Contents()
    {
      GatherAt(EntriesOf(pairs), b);
    }

    /** The bucket of the key, or the number of buckets. */
    method FindFilledBucket(key: K) returns (b: nat)
      requires Valid()
      ensures b == numBuckets <==> !Bags.HasKey(Contents(), key)
      ensures b != numBuckets ==> b < |pairs| && pairs[b].Some? && pairs[b].value.entry.key == key
    {
      hide *;
      ValidFacts();
      Facts();
      MaskFacts(-1);
      MainIs(key);
      var bucket := MainOf(key);
      AgreeFacts(-1, bucket);
      if bits[bucket] {
        NoChain(Sp(), index, keys, at, chains, bucket);
        AbsentHere(key);
        return numBuckets;
      }
      ghost var m, j := LookAt(Sp(), index, keys, at, chains, key);
      var found, r, prev, p := FindFrom(key, bucket, bucket, m, j);
      if found {
        PresentHere(r, key);
        return r;
      }
      AbsentHere(key);
      return numBuckets;
    }

    // ----- insertion

    /** An empty bucket is left while there are fewer pairs than buckets. */
    lemma EmptyLeft()
      requires Woven() && Agrees(-1) && Masked(-1) && |keys| < numBuckets
      ensures exists e: nat :: e < numBuckets && e < |bits| && bits[e]
    {
      hide Forest, Covers, Padded;
      Facts();
      var e := EmptyExists(Sp(), index, keys, at, chains);
      AgreeFacts(-1, e);
      assert bits[e];
    }

    /** Moves the occupant of a bucket that is not its main bucket to an empty one, and relinks its chain. The bit of the
        bucket stays clear, for the pair to come. */
    method KickoutBucket(kmain: nat, kbucket: nat) returns (b: nat)
      requires Woven() && Agrees(-1) && Masked(-1) && |keys| < numBuckets && last <= LastWord(numBuckets)
      requires kbucket < numBuckets && kbucket < |pairs| && pairs[kbucket].Some?
               && kmain == MainOf(pairs[kbucket].value.entry.key) != kbucket
      modifies `pairs, `bits, `last, `index, `at, `chains
      ensures b == kbucket && Woven() && Agrees(-1) && Masked(b) && Contents() == old(Contents())
              && last <= LastWord(numBuckets)
      ensures b < |pairs| && pairs[b].None?
    {
      hide *;
      Facts();
      MaskFacts(-1);
      AgreeFacts(-1, kbucket);
      MainIs(pairs[kbucket].value.entry.key);
      ghost var g, chain := Sp(), chains[kmain];
      ghost var j := PlaceOnChain(g, index, keys, at, chains, kbucket);
      NextIs(g, index, keys, kmain, chain, j);
      EmptyLeft();
      var next := pairs[kbucket].value.next;
      var newBucket := FindEmptyBucket(next);
      var prev := FindPrevBucket(kmain, kbucket, j);
      Relocate(kbucket, newBucket, prev, kmain, j);
      return kbucket;
    }

    /** Moves the pair to the empty bucket and links the bucket before it there. */
    method Relocate(kbucket: nat, newBucket: nat, prev: nat, ghost kmain: nat, ghost j: nat)
      requires Woven() && Agrees(-1) && Masked(-1)
      requires kmain < |chains| && kmain < numBuckets && 0 < j < |chains[kmain]| && kbucket == chains[kmain][j]
               && prev == chains[kmain][j - 1]
      requires newBucket < numBuckets && newBucket < |pairs| && pairs[newBucket].None?
      modifies `pairs, `bits, `index, `at, `chains
      ensures Woven() && Agrees(-1) && Masked(kbucket) && Contents() == old(Contents()) && |pairs| == old(|pairs|)
      ensures kbucket < |pairs| && pairs[kbucket].None?
    {
      hide *;
      Facts();
      MaskFacts(-1);
      ghost var g, chain := Sp(), chains[kmain];
      NextIs2(g, index, keys, at, chains, kmain, j);
      NextIs2(g, index, keys, at, chains, kmain, j - 1);
      ChainAt(g, index, keys, at, chains, kmain);
      DistinctAt(g, index, keys, kmain, chain, j);
      AgreeFacts(-1, kbucket);
      AgreeFacts(-1, prev);
      AgreeFacts(-1, newBucket);
      KickOut(g, index, keys, at, chains, kmain, j, newBucket);
      var next := pairs[kbucket].value.next;
      var tail := if next == kbucket then newBucket else next;
      AgreeAfterMove(g, index, keys, pairs, newBucket, prev, kbucket, tail);
      ContentsAfterMove(pairs, newBucket, prev, kbucket, tail);
      ContentsIs();
      ghost var was, s, before := pairs, SlotOf(g, index[kbucket]), at;
      pairs := pairs[newBucket := Some(pairs[kbucket].value.(next := tail))][prev := Some(pairs[prev].value.(next := newBucket))]
        [kbucket := None];
      MaskAfterMove(bits, was, pairs, numBuckets, newBucket, kbucket);
      bits := bits[newBucket := false];
      index := index[newBucket := Cell(tail, index[kbucket].slot)][prev := index[prev].(next := newBucket)]
        [kbucket := index[kbucket].(next := INACTIVE)];
      chain := chain[j := newBucket];
      at, chains := at[s := newBucket], chains[kmain := chain];
      assert Forest(g, index, keys, at, chains);
      CoversSame(before, at, |keys|);
      Gathered(kbucket);
    }

    lemma ContentsIs()
      ensures Contents() == Gather(EntriesOf(pairs))
    {
    }

    lemma Gathered(b: int)
      requires Forest(Sp(), index, keys, at, chains) && Covers(at, |keys|) && |keys| <= numBuckets
      requires Agreement(Sp(), index, keys, pairs, -1) && MaskOf(bits, pairs, numBuckets, b)
      ensures Woven() && Agrees(-1) && Masked(b) && Contents() == Gather(EntriesOf(pairs))
    {
    }

    /** The forest has the key, with the greatest number, in bucket `b`; the pair is still to come. */
    ghost predicate Pending(key: K, b: nat)
      reads `pairs, `bits, `numBuckets, `index, `keys, `at, `chains
    {
      && Woven() && Agrees(b) && Masked(b) && b < numBuckets && b < |index| && index[b].next == b
      && |keys| > 0 && keys[|keys| - 1] == key && SlotOf(Sp(), index[b]) == |keys| - 1
    }

    lemma MakePending(key: K, b: nat)
      requires Forest(Sp(), index, keys, at, chains) && Covers(at, |keys|) && |keys| <= numBuckets
      requires Agreement(Sp(), index, keys, pairs, b) && MaskOf(bits, pairs, numBuckets, b)
      requires b < numBuckets && b < |index| && |keys| > 0 && keys[|keys| - 1] == key
      requires index[b] == Cell(b, Packed(Sp(), |keys| - 1, key))
      ensures Pending(key, b)
    {
      PackedIs(Sp(), |keys| - 1, key, b);
    }

    /** Numbers a key that starts a chain in its empty main bucket. */
    ghost method StartChain(key: K, b: nat)
      requires Woven() && Agrees(-1) && Masked(b) && |keys| < numBuckets && b == MainOf(key) && b < |pairs| && pairs[b].None?
      modifies `index, `keys, `at, `chains
      ensures Pending(key, b) && keys == old(keys) + [key]
    {
      hide *;
      Facts();
      MaskFacts(b);
      AgreeFacts(-1, b);
      MainIs(key);
      ghost var g, s, more, cell := Sp(), |keys|, keys + [key], Cell(b, Packed(Sp(), |keys|, key));
      NextNumber(at, s);
      SameStoredKeys(g, index, keys, more, at, chains);
      StoreHead(g, index, more, at, chains, s, b);
      AgreeAfterStore(g, index, keys, pairs, b, cell, key);
      CoversOneMore(at, s, b);
      index := index[b := cell];
      keys, at, chains := more, at[s := b], chains[b := [b]];
      MakePending(key, b);
    }

    /** Links an empty bucket to the end of the key's chain, and numbers the key. */
    method LinkEmpty(key: K, tail: nat) returns (b: nat)
      requires Woven() && Agrees(-1) && Masked(-1) && |keys| < numBuckets && last <= LastWord(numBuckets)
      requires MainOf(key) < |chains| && chains[MainOf(key)] != [] && tail == chains[MainOf(key)][|chains[MainOf(key)]| - 1]
      modifies `pairs, `last, `index, `keys, `at, `chains
      ensures Pending(key, b) && Contents() == old(Contents()) && last <= LastWord(numBuckets) && keys == old(keys) + [key]
      ensures b < |pairs| && pairs[b].None?
    {
      hide *;
      Facts();
      MaskFacts(-1);
      MainIs(key);
      ghost var g, s, more, m := Sp(), |keys|, keys + [key], MainOf(key);
      ghost var c: seq<nat> := chains[m];
      NextIs2(g, index, keys, at, chains, m, |c| - 1);
      AgreeFacts(-1, tail);
      EmptyLeft();
      b := FindEmptyBucket(tail);
      AgreeFacts(-1, b);
      ghost var cell := Cell(b, Packed(g, s, key));
      NextNumber(at, s);
      SameStoredKeys(g, index, keys, more, at, chains);
      StoreTail(g, index, more, at, chains, s, m, b);
      AgreeAfterLink(g, index, keys, pairs, tail, b);
      SameNext(pairs, tail, b, bits, numBuckets);
      ContentsIs();
      pairs := pairs[tail := Some(pairs[tail].value.(next := b))];
      AgreeAfterStore(g, index[tail := index[tail].(next := b)], keys, pairs, b, cell, key);
      MaskWeaker(bits, pairs, numBuckets, b);
      CoversOneMore(at, s, b);
      index := index[tail := index[tail].(next := b)][b := cell];
      c := c + [b];
      keys, at, chains := more, at[s := b], chains[m := c];
      assert Forest(g, index, keys, at, chains);
      MakePending(key, b);
      ContentsIs();
    }

    /** The bucket of the key, or the bucket that its pair is to be put into. */
    method FindOrAllocate(key: K) returns (b: nat, isEmpty: bool)
      requires Woven() && Agrees(-1) && Masked(-1) && |keys| < numBuckets && last <= LastWord(numBuckets)
      modifies `pairs, `bits, `last, `index, `keys, `at, `chains
      ensures isEmpty ==> Pending(key, b) && !Bags.HasKey(old(Contents()), key) && keys == old(keys) + [key]
                          && b < |pairs| && pairs[b].None?
      ensures isEmpty ==> Contents() == old(Contents()) && last <= LastWord(numBuckets)
      ensures !isEmpty ==> b < |pairs| && pairs[b].Some? && pairs[b].value.entry.key == key
      ensures !isEmpty ==> pairs == old(pairs) && bits == old(bits) && last == old(last) && index == old(index)
                           && keys == old(keys) && at == old(at) && chains == old(chains)
    {
      hide *;
      Facts();
      MaskFacts(-1);
      MainIs(key);
      var bucket := MainOf(key);
      AgreeFacts(-1, bucket);
      if bits[bucket] {
        NoChain(Sp(), index, keys, at, chains, bucket);
        AbsentHere(key);
        MaskWeaker(bits, pairs, numBuckets, bucket);
        MaskAgain(bucket);
        StartChain(key, bucket);
        return bucket, true;
      }
      if pairs[bucket].value.entry.key == key {
        return bucket, false;
      }
      ghost var m, j := LookAt(Sp(), index, keys, at, chains, key);
      MainIs(pairs[bucket].value.entry.key);
      var next := pairs[bucket].value.next;
      var kmain := MainOf(pairs[bucket].value.entry.key);
      if kmain != bucket {
        AbsentHere(key);
        b := KickoutBucket(kmain, bucket);
        StartChain(key, b);
        return b, true;
      }
      HeadFacts(Sp(), index, keys, at, chains, bucket);
      NoneOfMore(Sp(), index, keys, chains[bucket], key, 0);
      if next == bucket {
        AbsentHere(key);
        b := LinkEmpty(key, next);
        return b, true;
      }
      var found, r, prev, p := FindFrom(key, next, bucket, bucket, 1);
      if found {
        return r, false;
      }
      AbsentHere(key);
      b := LinkEmpty(key, r);
      return b, true;
    }

    lemma MaskAgain(b: nat)
      requires MaskOf(bits, pairs, numBuckets, b)
      ensures Masked(b)
    {
    }

    /** The bucket that the pair of an absent key is to be put into. */
    method FindUniqueBucket(key: K) returns (b: nat)
      requires Woven() && Agrees(-1) && Masked(-1) && |keys| < numBuckets && last <= LastWord(numBuckets)
      modifies `pairs, `bits, `last, `index, `keys, `at, `chains
      ensures Pending(key, b) && keys == old(keys) + [key] && b < |pairs| && pairs[b].None?
      ensures Contents() == old(Contents()) && last <= LastWord(numBuckets)
    {
      hide *;
      Facts();
      MaskFacts(-1);
      MainIs(key);
      var bucket := MainOf(key);
      AgreeFacts(-1, bucket);
      if bits[bucket] {
        MaskWeaker(bits, pairs, numBuckets, bucket);
        MaskAgain(bucket);
        StartChain(key, bucket);
        return bucket;
      }
      MainIs(pairs[bucket].value.entry.key);
      var kmain := MainOf(pairs[bucket].value.entry.key);
      if kmain != bucket {
        b := KickoutBucket(kmain, bucket);
        StartChain(key, b);
        return;
      }
      HeadFacts(Sp(), index, keys, at, chains, bucket);
      var next := pairs[bucket].value.next;
      if next != bucket {
        next := FindLastBucket(next, bucket, 1);
      }
      b := LinkEmpty(key, next);
    }

    /** Constructs the pair in its bucket, linked to itself, and clears the bucket's bit. */
    method EmhNew(key: K, value: V, b: nat)
      requires Pending(key, b) && b < |pairs| && pairs[b].None? && Unique(Contents()) && !Bags.HasKey(Contents(), key)
      requires numFilled == |keys| - 1 == |Contents()| && numBuckets > 0 && last <= LastWord(numBuckets)
      modifies `pairs, `bits, `numFilled
      ensures Valid() && Contents() == old(Contents()) + multiset{Entry(key, value)}
      ensures MapOf(Contents()) == old(MapOf(Contents()))[key := value]
      ensures b < |pairs| && pairs[b] == Some(Pair(Entry(key, value), b))
    {
      hide *;
      PendingFacts(key, b);
      ContentsIs();
      UniqueInsert(Contents(), Entry(key, value));
      ghost var before := Contents();
      AgreeAfterPut(Sp(), index, keys, pairs, b, Entry(key, value));
      MaskAfterPut(bits, pairs, numBuckets, b, Pair(Entry(key, value), b));
      ContentsAfterPut(pairs, b, Pair(Entry(key, value), b));
      pairs := pairs[b := Some(Pair(Entry(key, value), b))];
      numFilled := numFilled + 1;
      bits := bits[b := false];
      ValidAgain(before + multiset{Entry(key, value)});
    }

    lemma PendingFacts(key: K, b: nat)
      requires Pending(key, b)
      ensures Forest(Sp(), index, keys, at, chains) && Covers(at, |keys|) && |keys| <= numBuckets
      ensures Agreement(Sp(), index, keys, pairs, b) && MaskOf(bits, pairs, numBuckets, b) && Sp().n == numBuckets
      ensures b < numBuckets <= |bits| && b < |index| && index[b].next == b && |keys| > 0
      ensures SlotOf(Sp(), index[b]) == |keys| - 1 && keys[SlotOf(Sp(), index[b])] == key
    {
    }

    lemma ValidAgain(c: multiset<Entry<K, V>>)
      requires Forest(Sp(), index, keys, at, chains) && Covers(at, |keys|) && |keys| <= numBuckets
      requires Agreement(Sp(), index, keys, pairs, -1) && MaskOf(bits, pairs, numBuckets, -1)
      requires Gather(EntriesOf(pairs)) == c && Unique(c) && numFilled == |keys| == |c|
      requires numBuckets > 0 && last <= LastWord(numBuckets)
      ensures Valid() && Contents() == c
    {
    }

    // ----- erasure

    /** Takes a number away: the key with the greatest number gets it. */
    ghost method Forget(s: nat, e: nat)
      requires Forest(Sp(), index, keys, at, chains) && s < |keys| <= numBuckets && Agreement(Sp(), index, keys, pairs, e)
      requires (forall x: nat :: x in at <==> x < |keys| && x != s) && e < numBuckets && e < |index| && index[e].next < 0
      modifies `index, `keys, `at
      ensures Woven() && Agreement(Sp(), index, keys, pairs, e) && |keys| == old(|keys|) - 1 && |index| == old(|index|)
      ensures e < |index| && index[e].next < 0
    {
      hide Forest, GoodSize, Agreement, SlotOf, BitsOf, SwapRemove, Covers;
      ghost var g, was, more, n := Sp(), index, keys, |keys|;
      ForestFacts(g, index, keys, at, chains);
      SwapRemoveAt(keys, s);
      if s + 1 < |keys| {
        Renumber(g, index, keys, at, chains, s);
        RenumberKeys(g, index, keys, at, chains, s);
        ghost var b := at[|keys| - 1];
        SlotAtIs(g, index, keys, at, chains, n - 1);
        index := index[b := index[b].(slot := s + BitsOf(g, index[b]))];
        at := (at - {n - 1})[s := b];
        keys := SwapRemove(keys, s);
      } else {
        CoversLast(at, n - 1);
        DropLast(g, index, keys, at, chains);
        LastIsGone(g, index, keys, at, chains);
        keys := SwapRemove(keys, s);
      }
      AgreeAfterRenumber(g, was, index, more, keys, pairs, e);
    }

    /** What erasing a pair leaves to be cleared: bucket `e`, which is off its chain. */
    ghost predicate Detached(e: nat, erased: Entry<K, V>, whole: multiset<Entry<K, V>>)
      reads `pairs, `bits, `numBuckets, `index, `keys, `at, `chains
    {
      && Woven() && Agreement(Sp(), index, keys, pairs, e) && MaskOf(bits, pairs, numBuckets, -1)
      && e < numBuckets && e < |pairs| && e < |index| && index[e].next < 0
      && Gather(EntriesOf(pairs[e := None])) + multiset{erased} == whole
    }

    lemma MakeDetached(e: nat, erased: Entry<K, V>, whole: multiset<Entry<K, V>>)
      requires Woven() && Agreement(Sp(), index, keys, pairs, e) && MaskOf(bits, pairs, numBuckets, -1)
      requires e < numBuckets && e < |pairs| && e < |index| && index[e].next < 0
      requires Gather(EntriesOf(pairs[e := None])) + multiset{erased} == whole
      ensures Detached(e, erased, whole)
    {
    }

    /** Takes the pair in its main bucket off its chain: the second pair of the chain is copied over it. */
    method DetachHead(bucket: nat) returns (e: nat)
      requires Woven() && Agrees(-1) && Masked(-1) && bucket < |pairs| && bucket < numBuckets && pairs[bucket].Some?
      requires MainOf(pairs[bucket].value.entry.key) == bucket
      modifies `pairs, `index, `keys, `at, `chains
      ensures Detached(e, old(pairs[bucket].value.entry), old(Contents())) && |keys| == old(|keys|) - 1
      ensures e == old(pairs[bucket].value.next)
    {
      hide *;
      Facts();
      MaskFacts(-1);
      AgreeFacts(-1, bucket);
      MainIs(pairs[bucket].value.entry.key);
      ContentsIs();
      ClearedIs();
      ghost var g, was, from, s := Sp(), pairs, at, SlotOf(Sp(), index[bucket]);
      HeadFacts(g, index, keys, at, chains, bucket);
      FilledAt(g, index, keys, at, chains, bucket);
      ghost var c: seq<nat> := chains[bucket];
      e := pairs[bucket].value.next;
      if bucket == e {
        UnlinkOnly(g, index, keys, at, chains, bucket);
        AgreeAfterClear(g, index, keys, pairs, bucket);
        ContentsAfterTake(pairs, bucket);
        index := index[bucket := CLEARED];
        at, chains := at - {s}, chains[bucket := []];
      } else {
        NextIs2(g, index, keys, at, chains, bucket, 1);
        AgreeFacts(-1, e);
        FilledAt(g, index, keys, at, chains, e);
        UnlinkHead(g, index, keys, at, chains, bucket);
        var nbucket := pairs[e].value.next;
        var next := if nbucket == e then bucket else nbucket;
        AgreeAfterCopy(g, index, keys, pairs, bucket, e, next);
        ContentsAfterCopy(pairs, bucket, e, next);
        pairs := pairs[bucket := Some(pairs[e].value.(next := next))];
        MaskSame(bits, was, pairs, numBuckets);
        ghost var t := SlotOf(g, index[e]);
        index := index[bucket := Cell(next, index[e].slot)][e := CLEARED];
        c := Without(c, 1);
        at, chains := (at - {s})[t := bucket], chains[bucket := c];
      }
      CoversLess(from, at, |keys|, s);
      Forget(s, e);
      MakeDetached(e, was[bucket].value.entry, Gather(EntriesOf(was)));
    }

    /** Takes a pair that is not the first of its chain off it. */
    method DetachAfter(prev: nat, bucket: nat, ghost m: nat, ghost j: nat)
      requires Woven() && Agrees(-1) && Masked(-1) && m < |chains| && m < numBuckets && 0 < j < |chains[m]|
      requires bucket == chains[m][j] && prev == chains[m][j - 1]
      modifies `pairs, `index, `keys, `at, `chains
      ensures bucket < old(|pairs|) && old(pairs)[bucket].Some?
      ensures Detached(bucket, old(pairs)[bucket].value.entry, old(Contents())) && |keys| == old(|keys|) - 1
    {
      hide *;
      Facts();
      MaskFacts(-1);
      ContentsIs();
      ClearedIs();
      ghost var g, was, from := Sp(), pairs, at;
      NextIs2(g, index, keys, at, chains, m, j);
      NextIs2(g, index, keys, at, chains, m, j - 1);
      AgreeFacts(-1, bucket);
      AgreeFacts(-1, prev);
      FilledAt(g, index, keys, at, chains, bucket);
      Unlink(g, index, keys, at, chains, m, j);
      ghost var s := SlotOf(g, index[bucket]);
      var nbucket := pairs[bucket].value.next;
      var next := if nbucket == bucket then prev else nbucket;
      AgreeAfterRelink(g, index, keys, pairs, prev, bucket, next);
      ContentsAfterRelink(pairs, prev, bucket, next);
      pairs := pairs[prev := Some(pairs[prev].value.(next := next))];
      MaskSame(bits, was, pairs, numBuckets);
      index := index[prev := index[prev].(next := next)][bucket := CLEARED];
      ghost var c: seq<nat> := Without(chains[m], j);
      at, chains := at - {s}, chains[m := c];
      CoversLess(from, at, |keys|, s);
      Forget(s, bucket);
      MakeDetached(bucket, was[bucket].value.entry, Gather(EntriesOf(was)));
    }

    method ClearBucket(e: nat, ghost erased: Entry<K, V>, ghost whole: multiset<Entry<K, V>>)
      requires Detached(e, erased, whole) && Unique(whole) && numFilled == |keys| + 1 == |whole|
      requires numBuckets > 0 && last <= LastWord(numBuckets)
      modifies `pairs, `bits, `numFilled
      ensures Valid() && Contents() + multiset{erased} == whole && MapOf(Contents()) == MapOf(whole) - {erased.key}
      ensures e < old(|pairs|) && pairs == old(pairs)[e := None] && e < old(|bits|) && bits == old(bits)[e := true]
    {
      hide *;
      DetachedFacts(e, erased, whole);
      AgreeAfterEmptying(Sp(), index, keys, pairs, e);
      MaskAfterEmptying(bits, pairs, numBuckets, e);
      bits := bits[e := true];
      numFilled := numFilled - 1;
      pairs := pairs[e := None];
      UniqueDelete(whole, Gather(EntriesOf(pairs)), erased);
      assert |Gather(EntriesOf(pairs)) + multiset{erased}| == |Gather(EntriesOf(pairs))| + 1;
      ValidAgain(Gather(EntriesOf(pairs)));
    }

    lemma DetachedFacts(e: nat, erased: Entry<K, V>, whole: multiset<Entry<K, V>>)
      requires Detached(e, erased, whole)
      ensures Forest(Sp(), index, keys, at, chains) && Covers(at, |keys|) && |keys| <= numBuckets && Sp().n == numBuckets
      ensures Agreement(Sp(), index, keys, pairs, e) && MaskOf(bits, pairs, numBuckets, -1)
      ensures e < numBuckets <= |bits| && e < |pairs| && e < |index| && index[e].next < 0
      ensures Gather(EntriesOf(pairs[e := None])) + multiset{erased} == whole
    {
    }

    /** Takes the key's pair off its chain; the bucket to clear, when the key was there. */
    method EraseKey(key: K) returns (e: Option<nat>, ghost erased: Option<Entry<K, V>>)
      requires Valid()
      modifies `pairs, `index, `keys, `at, `chains
      ensures e.None? ==> !Bags.HasKey(old(Contents()), key) && Valid() && pairs == old(pairs)
      ensures e.Some? ==> Bags.HasKey(old(Contents()), key) && erased.Some? && erased.value.key == key
      ensures e.Some? ==> Detached(e.value, erased.value, old(Contents())) && |keys| == old(|keys|) - 1
    {
      hide *;
      ValidFacts();
      Facts();
      MaskFacts(-1);
      MainIs(key);
      var bucket := MainOf(key);
      erased := None;
      AgreeFacts(-1, bucket);
      if bits[bucket] {
        NoChain(Sp(), index, keys, at, chains, bucket);
        AbsentHere(key);
        return None, None;
      }
      var next := pairs[bucket].value.next;
      if key == pairs[bucket].value.entry.key {
        PresentHere(bucket, key);
        erased := Some(pairs[bucket].value.entry);
        var r := DetachHead(bucket);
        return Some(r), erased;
      }
      ghost var m, j := LookAt(Sp(), index, keys, at, chains, key);
      ChainAt(Sp(), index, keys, at, chains, m);
      NextIs(Sp(), index, keys, m, chains[m], j);
      NoneOfMore(Sp(), index, keys, chains[m], key, j);
      if next == bucket {
        AbsentHere(key);
        return None, None;
      }
      var found, r, prev, p := FindFrom(key, next, bucket, m, j + 1);
      if !found {
        AbsentHere(key);
        return None, None;
      }
      PresentHere(r, key);
      erased := Some(pairs[r].value.entry);
      DetachAfter(prev, r, m, p);
      return Some(r), erased;
    }

    /** Erases a key; 1 when it was there, 0 otherwise. */
    method Erase(key: K) returns (count: nat)
      requires Valid()
      modifies this
      ensures Valid() && count == if key in old(MapOf(Contents())) then 1 else 0
      ensures MapOf(Contents()) == old(MapOf(Contents())) - {key}
      ensures numBuckets == old(numBuckets)
    {
      hide *;
      ValidFacts();
      MapOfKey(Contents(), key);
      ContentsIs();
      ghost var whole := Contents();
      var e, erased := EraseKey(key);
      if e.None? {
        assert MapOf(whole) - {key} == MapOf(whole);
        SameContents(whole);
        return 0;
      }
      ClearBucket(e.value, erased.value, whole);
      return 1;
    }

    lemma SameContents(whole: multiset<Entry<K, V>>)
      requires whole == Gather(EntriesOf(pairs))
      ensures Contents() == whole
    {
    }

    /** `erase(iterator)`: the iterator stays where it is when the next pair of the chain has moved there, and is
        incremented otherwise. An iterator that was made from its bucket alone reads its word only then, with its own
        bucket empty already, and is right if and only if no clear bit, of a bucket or of the padding, follows in that
        word; otherwise it goes to the next clear bit but one. */
    method EraseAt(it: Iterator) returns (r: Iterator)
      requires Valid() && Positioned(bits, numBuckets, it) && it.bucket < numBuckets && it.bucket < |pairs|
               && pairs[it.bucket].Some?
      modifies this
      ensures Valid() && MapOf(Contents()) == old(MapOf(Contents())) - {old(pairs[it.bucket].value.entry.key)}
      ensures Padded(bits, numBuckets) && numBuckets == old(numBuckets) && it.bucket < |bits|
      ensures !bits[it.bucket] ==> r.bucket == it.bucket && Positioned(bits, numBuckets, r)
      ensures bits[it.bucket] && it.from != FRESH ==> r.bucket == NextFilled(bits, numBuckets, it.bucket + 1)
                                                      && Ready(bits, numBuckets, r)
      ensures bits[it.bucket] && it.from == FRESH ==>
                var next := NextFilled(bits, numBuckets, it.bucket + 1);
                && next + 1 < |bits|
                && r.bucket == (if next < WordStart(it.bucket) + 64 then NextFilled(bits, numBuckets, next + 1) else next)
                && (r.bucket == next <==> next >= WordStart(it.bucket) + 64)
                && (r.bucket <= numBuckets ==> Ready(bits, numBuckets, r))
    {
      hide *;
      ValidFacts();
      MaskFacts(-1);
      ContentsIs();
      ghost var whole, was, erased := Contents(), bits, pairs[it.bucket].value.entry;
      ReadyIs(bits, numBuckets, it);
      var e := EraseBucket(it.bucket);
      ClearBucket(e, erased, whole);
      ValidFacts();
      MaskFacts(-1);
      PaddedFacts(bits, numBuckets);
      if e == it.bucket {
        if it.from == FRESH {
          r := IncrementEmptied(bits, numBuckets, it);
        } else {
          r := IncrementReady(bits, was, numBuckets, it);
        }
      } else {
        r := it.(mask := ClearedIn(it, e));
        StillPositioned(was, numBuckets, it, e);
      }
    }

    /** `erase_bucket`: takes the pair of a bucket off its chain; the bucket to clear. */
    method EraseBucket(bucket: nat) returns (e: nat)
      requires Valid() && bucket < numBuckets && bucket < |pairs| && pairs[bucket].Some?
      modifies `pairs, `index, `keys, `at, `chains
      ensures Detached(e, old(pairs[bucket].value.entry), old(Contents())) && |keys| == old(|keys|) - 1
              && e < |pairs| == old(|pairs|)
    {
      hide *;
      ValidFacts();
      Facts();
      AgreeFacts(-1, bucket);
      MainIs(pairs[bucket].value.entry.key);
      var main := MainOf(pairs[bucket].value.entry.key);
      ghost var size, erased, whole := |pairs|, pairs[bucket].value.entry, Contents();
      ghost var j := PlaceOnChain(Sp(), index, keys, at, chains, bucket);
      if bucket == main {
        e := DetachHead(bucket);
      } else {
        var prev := FindPrevBucket(main, bucket, j);
        DetachAfter(prev, bucket, main, j);
        e := bucket;
      }
      DetachedFacts(e, erased, whole);
      AgreementSize(Sp(), index, keys, pairs, e);
    }

    // ----- insertion

    /** Adds the pair unless the key is there. */
    method DoInsert(key: K, value: V) returns (b: nat, inserted: bool)
      requires Valid() && numFilled < numBuckets
      modifies this
      ensures Valid() && b < |pairs| && pairs[b].Some? && pairs[b].value.entry.key == key
      ensures inserted <==> key !in old(MapOf(Contents()))
      ensures MapOf(Contents()) == if inserted then old(MapOf(Contents()))[key := value] else old(MapOf(Contents()))
      ensures numBuckets == old(numBuckets) && mlf == old(mlf)
      ensures inserted ==> pairs[b].value.entry == Entry(key, value)
    {
      hide *;
      ValidFacts();
      MapOfKey(Contents(), key);
      ContentsIs();
      ghost var whole := Contents();
      b, inserted := FindOrAllocate(key);
      if inserted {
        EmhNew(key, value, b);
      } else {
        SameContents(whole);
        PresentHere(b, key);
        StillValid(whole);
      }
    }

    lemma StillValid(whole: multiset<Entry<K, V>>)
      requires Woven() && Agrees(-1) && Masked(-1) && Contents() == whole && Unique(whole) && numFilled == |keys| == |whole|
      requires numBuckets > 0 && last <= LastWord(numBuckets)
      ensures Valid()
    {
    }

    /** Adds the pair unless the key is there, growing first when the table is full. */
    method Insert(key: K, value: V) returns (b: nat, inserted: bool)
      requires Valid() && Room() && Needed(numFilled, mlf) + 2 <= MAX_BUCKETS / 2
      modifies this
      ensures Valid() && b < |pairs| && pairs[b].Some? && pairs[b].value.entry.key == key
      ensures inserted <==> key !in old(MapOf(Contents()))
      ensures MapOf(Contents()) == if inserted then old(MapOf(Contents()))[key := value] else old(MapOf(Contents()))
      ensures inserted ==> pairs[b].value.entry == Entry(key, value)
      ensures mlf == old(mlf) && numBuckets == old(SizeFor(numFilled))
    {
      hide *;
      var grown := Reserve(numFilled);
      b, inserted := DoInsert(key, value);
    }

    /** Adds the pair or overwrites the value. */
    method DoAssign(key: K, value: V) returns (b: nat, inserted: bool)
      requires Valid() && Room() && Needed(numFilled, mlf) + 2 <= MAX_BUCKETS / 2
      modifies this
      ensures Valid() && (inserted <==> key !in old(MapOf(Contents())))
      ensures MapOf(Contents()) == old(MapOf(Contents()))[key := value]
      ensures b < |pairs| && pairs[b].Some? && pairs[b].value.entry == Entry(key, value)
      ensures mlf == old(mlf) && numBuckets == old(SizeFor(numFilled))
    {
      hide *;
      var grown := Reserve(numFilled);
      b, inserted := DoInsert(key, value);
      if !inserted {
        Overwrite(b, key, value);
      }
    }

    method Overwrite(b: nat, key: K, value: V)
      requires Valid() && b < |pairs| && pairs[b].Some? && pairs[b].value.entry.key == key
      modifies `pairs
      ensures Valid() && MapOf(Contents()) == old(MapOf(Contents()))[key := value]
      ensures b < |pairs| && pairs[b].Some? && pairs[b].value.entry == Entry(key, value)
    {
      hide *;
      ValidFacts();
      MaskFacts(-1);
      AgreeFacts(-1, b);
      Facts();
      ContentsIs();
      PresentHere(b, key);
      ghost var was, e, whole := pairs, pairs[b].value.entry, Contents();
      AgreeAfterOverwrite(Sp(), index, keys, pairs, b, Entry(key, value));
      ContentsAfterOverwrite(pairs, b, Entry(key, value));
      pairs := pairs[b := Some(pairs[b].value.(entry := Entry(key, value)))];
      MaskSame(bits, was, pairs, numBuckets);
      Exchanged(whole, Gather(EntriesOf(pairs)), e, Entry(key, value));
      ValidAgain(Gather(EntriesOf(pairs)));
    }

    /** Adds a pair whose key is known to be absent. */
    method InsertUnique(key: K, value: V) returns (b: nat)
      requires Valid() && Room() && Needed(numFilled, mlf) + 2 <= MAX_BUCKETS / 2 && !Bags.HasKey(Contents(), key)
      modifies this
      ensures Valid() && Contents() == old(Contents()) + multiset{Entry(key, value)}
      ensures b < |pairs| && pairs[b].Some? && pairs[b].value.entry == Entry(key, value)
      ensures mlf == old(mlf) && numBuckets == old(SizeFor(numFilled))
    {
      hide *;
      var grown := Reserve(numFilled);
      ValidFacts();
      b := FindUniqueBucket(key);
      EmhNew(key, value, b);
    }

    // ----- growth

    method Reserve(n: nat) returns (grown: bool)
      requires Valid() && Needed(n, mlf) + 2 <= MAX_BUCKETS / 2
      modifies this
      ensures Valid() && Contents() == old(Contents()) && mlf == old(mlf) && numFilled == old(numFilled)
      ensures grown <==> Needed(n, mlf) >= old(numBuckets)
      ensures if grown then Needed(n, mlf) + 2 <= numBuckets && numFilled < numBuckets else numBuckets == old(numBuckets)
      ensures numBuckets == old(SizeFor(n))
      ensures LOAD_UNIT <= mlf ==> n < numBuckets
      ensures n == numFilled && old(Room()) ==> numFilled < numBuckets
    {
      hide *;
      RoomIs();
      SizeIs();
      SizeForIs(n);
      if LOAD_UNIT <= mlf {
        NeededIsEnough(n, mlf);
      }
      if Needed(n, mlf) < numBuckets { return false; }
      Rehash(Needed(n, mlf) + 2);
      return true;
    }

    /** The buckets after making room for so many pairs. */
    function SizeFor(n: nat): nat
      reads `numBuckets, `numFilled, `mlf
    {
      if Needed(n, mlf) < numBuckets then numBuckets else BucketsFor(2, numFilled, Needed(n, mlf) + 2)
    }

    lemma SizeForIs(n: nat)
      ensures SizeFor(n) == if Needed(n, mlf) < numBuckets then numBuckets else BucketsFor(2, numFilled, Needed(n, mlf) + 2)
    {
    }

    lemma RoomIs()
      ensures Room() <==> numFilled < numBuckets || Needed(numFilled, mlf) >= numBuckets
    {
    }

    lemma SizeIs()
      requires Valid()
      ensures numFilled <= numBuckets
    {
    }

    /** Moves every pair to a new array of buckets, from the last bucket to the first. */
    method Rehash(required: nat)
      requires Valid() && required <= MAX_BUCKETS / 2
      modifies this
      ensures Valid() && Contents() == old(Contents()) && mlf == old(mlf) && numFilled == old(numFilled)
      ensures if required < numFilled then numBuckets == old(numBuckets) else required <= numBuckets
      ensures required >= numFilled ==>
                numBuckets == (if numFilled > 0x1_0000 then 0x1_0000 else 2) || numBuckets / 2 < required
      ensures required >= numFilled ==>
                numBuckets < MAX_BUCKETS && (numBuckets > numFilled <==> required > numFilled || !GoodSize(numFilled))
      ensures required >= numFilled ==> numBuckets == BucketsFor(2, numFilled, required)
    {
      hide *;
      if required < numFilled { return; }
      ValidFacts();
      MaskFacts(-1);
      LargestIs();
      ContentsIs();
      var n := BucketCount(2, numFilled, required);
      BucketsExceed(numFilled, required, n);
      SizeFacts(n);
      var oldNumFilled, oldPairs, obmask := numFilled, pairs, bits;
      ghost var whole, entries := Contents(), EntriesOf(oldPairs);
      EmptyStorage(n);
      var src: int := |oldPairs| - 1;
      AllLeft(entries);
      while numFilled < oldNumFilled
        invariant -1 <= src < |oldPairs| <= |obmask| && Valid() && mlf == old(mlf) && numBuckets == n
                  && whole == Gather(entries)
        invariant Contents() + Gather(entries[..src + 1]) == whole && Unique(whole)
                  && numFilled == |Contents()| <= oldNumFilled == |whole|
        invariant forall b | 0 <= b < |oldPairs| :: obmask[b] <==> oldPairs[b].None?
        invariant entries == EntriesOf(oldPairs) && |entries| == |oldPairs|
        decreases src + 1
      {
        LastLeft(entries, oldPairs, src, Contents(), whole);
        if !obmask[src] {
          MovePair(oldPairs[src].value.entry, whole);
        }
        src := src - 1;
      }
      NoneLeft(Contents(), Gather(entries[..src + 1]), whole);
    }

    /** Stores a pair of the old array in the new one. */
    method MovePair(e: Entry<K, V>, ghost whole: multiset<Entry<K, V>>)
      requires Valid() && Unique(whole) && Contents() + multiset{e} <= whole && numFilled < numBuckets
      modifies `pairs, `bits, `last, `index, `keys, `at, `chains, `numFilled
      ensures Valid() && Contents() == old(Contents()) + multiset{e} && numFilled == |Contents()|
    {
      hide *;
      UniquePart(whole, Contents(), e);
      ValidFacts();
      var b := FindUniqueBucket(e.key);
      EmhNew(e.key, e.value, b);
      ValidFacts();
    }

    /** A new array of empty buckets with its bitmask. */
    method EmptyStorage(n: nat)
      requires GoodSize(n)
      modifies this
      ensures Valid() && Contents() == multiset{} && numBuckets == n && numFilled == 0 && mlf == old(mlf)
    {
      hide *;
      SizeFacts(n);
      SizeWords(n);
      numFilled := 0;
      numBuckets := n;
      last := 0;
      pairs := seq(n, b => None);
      bits := NewMask(n);
      index := seq(n, b => CLEARED) + [Cell(0, 0), Cell(0, 0)];
      keys, at, chains := [], map[], seq(n, b => []);
      ClearedIs();
      NoForest(hash, n, index, chains);
      GatherNone(EntriesOf(pairs));
      NothingIs(Gather(EntriesOf(pairs)));
      NoneAgree(Space(hash, n), index, pairs);
      NoneMasked(bits, pairs, n);
      EmptyIsValid();
    }

    lemma EmptyIsValid()
      requires Forest(Space(hash, numBuckets), index, keys, at, chains) && keys == [] && at == map[] && numBuckets > 0
      requires Agreement(Space(hash, numBuckets), index, keys, pairs, -1) && MaskOf(bits, pairs, numBuckets, -1)
      requires Gather(EntriesOf(pairs)) == multiset{} && numFilled == 0 && last == 0
      ensures Valid() && Contents() == multiset{}
    {
      hide Forest, Agreement, MaskOf, Gather;
    }

    /** Removes every pair and keeps the number of buckets. */
    method Clear()
      requires Valid()
      modifies this
      ensures Valid() && Contents() == multiset{} && numBuckets == old(numBuckets)
    {
      hide *;
      ValidFacts();
      Facts();
      MaskFacts(-1);
      ContentsIs();
      if numFilled > 0 {
        EmptyBuckets();
      } else {
        NothingIs(Contents());
      }
      numFilled := 0;
      StillValid(multiset{});
    }

    /** Sets the bits of whole bytes, or of the buckets of a table with less than a byte. */
    method EmptyBuckets()
      requires Valid()
      modifies `pairs, `bits, `index, `keys, `at, `chains
      ensures Woven() && Agrees(-1) && Masked(-1) && keys == [] && Contents() == multiset{}
              && |keys| == |Contents()| && Unique(Contents())
    {
      hide *;
      ValidFacts();
      Facts();
      MaskFacts(-1);
      var n := numBuckets;
      SizeWords(n);
      pairs := seq(n, b => None);
      bits := SetBuckets(bits, n);
      ForestFacts(Sp(), index, keys, at, chains);
      index := seq(n, b => CLEARED) + index[n..];
      keys, at, chains := [], map[], seq(n, b => []);
      ClearedIs();
      NoForest(hash, n, index, chains);
      GatherNone(EntriesOf(pairs));
      NoneAgree(Space(hash, n), index, pairs);
      NoneMasked(bits, pairs, n);
      EmptiedIsWoven();
    }

    lemma EmptiedIsWoven()
      requires Forest(Space(hash, numBuckets), index, keys, at, chains) && keys == [] && at == map[] && numBuckets > 0
      requires Agreement(Space(hash, numBuckets), index, keys, pairs, -1) && MaskOf(bits, pairs, numBuckets, -1)
      requires Gather(EntriesOf(pairs)) == multiset{}
      ensures Woven() && Agrees(-1) && Masked(-1) && Contents() == multiset{} && |keys| == |Contents()| && Unique(Contents())
    {
      hide Forest, Agreement, MaskOf, Gather;
    }

    constructor (hash: K -> Word64, bucket: nat, f: real)
      requires bucket <= MAX_BUCKETS / 2
      ensures Valid() && Contents() == multiset{} && this.hash == hash && numBuckets == BucketsFor(2, 0, bucket)
      ensures mlf == Multiplier(f) && (LOAD_UNIT <= mlf <==> 0.25 < f <= 0.999)
    {
      this.hash := hash;
      mlf := REJECTED_MLF;
      if f <= 0.999 && f > 0.25 {
        UnitAbove(f);
        mlf := (LOAD_UNIT as real / f).Floor;
      }
      pairs, bits, numBuckets, numFilled, last := [], [], 0, 0, 0;
      index, keys, at, chains := [], [], map[], [];
      new;
      var n := BucketCount(2, 0, bucket);
      EmptyStorage(n);
    }
  }

  /** The buckets a rehash settles on exceed the pairs unless exactly as many are asked for and that is a power of two. */
  lemma BucketsExceed(filled: nat, required: nat, n: nat)
    requires filled <= required <= MAX_BUCKETS / 2 && n == BucketsFor(2, filled, required) && GoodSize(n)
    requires n == (if filled > 0x1_0000 then 0x1_0000 else 2) || n / 2 < required
    ensures n < MAX_BUCKETS && (n > filled <==> required > filled || !GoodSize(filled))
  {
    hide GoodSize, BucketsFor;
    SizeFacts(n);
    if required == filled && GoodSize(filled) {
      SizeFacts(filled);
      SameBuckets(2, filled, filled);
    }
  }

  lemma NeededIsShare(count: nat, mlf: nat)
    ensures Needed(count, mlf) * LOAD_UNIT <= count * mlf < (Needed(count, mlf) + 1) * LOAD_UNIT
  {
  }

  function Needed(count: nat, mlf: nat): nat {
    count * mlf / LOAD_UNIT
  }

  lemma NeededIsEnough(count: nat, mlf: nat)
    requires LOAD_UNIT <= mlf
    ensures Needed(count, mlf) >= count
  {
    MulMono(LOAD_UNIT, mlf, count);
  }

  /** `reserve` leaves an empty bucket for every number of pairs if and only if `_mlf` is at least that of a load factor
      of one. */
  lemma ReserveLeavesRoomIff(mlf: nat)
    ensures (forall count: nat, n: nat | Needed(count, mlf) < n && n <= MAX_BUCKETS && GoodSize(n) :: count < n)
            <==> LOAD_UNIT <= mlf
  {
    if LOAD_UNIT <= mlf {
      forall count: nat, n: nat | Needed(count, mlf) < n && n <= MAX_BUCKETS && GoodSize(n)
        ensures count < n
      {
        NeededIsEnough(count, mlf);
      }
    } else {
      assert Pow2(1) == 2;
      assert GoodSize(2);
      assert Needed(2, mlf) < 2;
    }
  }

  /** `_mlf` after a load factor that is out of range: 2^27 / 0.8. */
  const REJECTED_MLF: nat := (0x800_0000 as real / 0.8).Floor

  /** With it `reserve` is content with a table of any size that has no empty bucket left. */
  lemma RejectedFactorFills(n: nat)
    requires n > 0
    ensures Needed(n, REJECTED_MLF) < n
  {
    assert 0x800_0000 as real / 0.8 == 0xA00_0000 as real;
  }

  /** `_mlf` of the load factor a table is made with, or of the default when that is out of range. */
  function Multiplier(f: real): nat {
    if 0.25 < f <= 0.999 then
      UnitAbove(f);
      (LOAD_UNIT as real / f).Floor
    else REJECTED_MLF
  }

  lemma MultiplierIsInverse(f: real)
    ensures 0.25 < f <= 0.999 ==>
              Multiplier(f) as real * f <= LOAD_UNIT as real < (Multiplier(f) + 1) as real * f
    ensures !(0.25 < f <= 0.999) ==> Multiplier(f) == 0xA00_0000
  {
    if 0.25 < f <= 0.999 {
      var q := LOAD_UNIT as real / f;
      var r := Multiplier(f) as real;
      assert q * f == LOAD_UNIT as real && r <= q < r + 1.0;
      assert (q - r) * f >= 0.0 && (r + 1.0 - q) * f > 0.0;
    } else {
      assert 0x800_0000 as real / 0.8 == 0xA00_0000 as real;
    }
  }

  lemma UnitAbove(f: real)
    requires 0.0 < f < 1.0
    ensures (LOAD_UNIT as real / f).Floor >= LOAD_UNIT
  {
    var q := LOAD_UNIT as real / f;
    assert q * f == LOAD_UNIT as real;
    assert (q - LOAD_UNIT as real) * f == LOAD_UNIT as real * (1.0 - f);
    assert q - LOAD_UNIT as real >= 0.0;
  }

  lemma LargestIs()
    ensures MAX_BUCKETS / 2 < MAX_BUCKETS
  {
  }

  lemma AllLeft<T>(entries: seq<Option<T>>)
    ensures entries[..|entries| - 1 + 1] == entries
  {
  }

  /** The last of the old buckets that are left. */
  lemma LastLeft<K, V>(entries: seq<Option<Entry<K, V>>>, pairs: seq<Option<Pair<K, V>>>, src: int,
      moved: multiset<Entry<K, V>>, whole: multiset<Entry<K, V>>)
    requires -1 <= src < |pairs| && entries == EntriesOf(pairs) && moved + Gather(entries[..src + 1]) == whole
             && |moved| < |whole|
    ensures src >= 0 && src < |entries|
    ensures pairs[src].None? ==> Gather(entries[..src]) == Gather(entries[..src + 1])
    ensures pairs[src].Some? ==> moved + multiset{pairs[src].value.entry} <= whole
                                 && moved + multiset{pairs[src].value.entry} + Gather(entries[..src]) == whole
    ensures pairs[src].Some? ==> |moved + multiset{pairs[src].value.entry}| <= |whole|
  {
    NothingGathered(entries, moved);
    if src >= 0 {
      assert entries[..src + 1][..src] == entries[..src];
      if pairs[src].Some? {
        var e := pairs[src].value.entry;
        assert moved + multiset{e} + Gather(entries[..src]) == whole;
        assert |whole| == |moved + multiset{e}| + |Gather(entries[..src])|;
      }
    }
  }

  lemma NothingGathered<T>(slots: seq<Option<T>>, c: multiset<T>)
    ensures c + Gather(slots[..0]) == c
  {
  }

  lemma NoneLeft<T>(moved: multiset<T>, left: multiset<T>, whole: multiset<T>)
    requires moved + left == whole && |moved| >= |whole|
    ensures moved == whole
  {
    assert |whole| == |moved| + |left|;
    assert left == multiset{};
  }

  lemma NothingIs<T>(c: multiset<T>)
    ensures |c| == 0 ==> c == multiset{}
  {
  }

  lemma SizeWords(n: nat)
    requires GoodSize(n)
    ensures WordsOrLess(n) && (n >= 8 ==> n % 8 == 0) && n > 0
  {
    var p: nat :| 1 <= p <= 31 && n == Pow2(p);
    if p >= 6 {
      hide Pow2;
      Pow2Sum(6, p - 6);
      WordPowers();
      WholeWords(Pow2(p - 6));
    } else {
      SmallPowers(p);
    }
  }

  lemma WholeWords(q: nat)
    requires q > 0
    ensures 64 * q % 64 == 0 && 64 * q % 8 == 0 && WordsOrLess(64 * q)
  {
    DivModUnique(64 * q, 64, q, 0);
    DivModUnique(64 * q, 8, 8 * q, 0);
  }

  lemma SmallPowers(p: nat)
    requires 1 <= p <= 5
    ensures Pow2(p) == if p == 1 then 2 else if p == 2 then 4 else if p == 3 then 8 else if p == 4 then 16 else 32
  {
    assert Pow2(2) == 4;
    assert Pow2(4) == 16;
  }

  lemma NoForest<K>(hash: K -> Word64, n: nat, index: seq<Cell>, chains: seq<seq<nat>>)
    requires GoodSize(n) && n > 0 && |index| == n + 2 && index[n].next >= 0 && index[n + 1].next >= 0
    requires chains == seq(n, b => []) && forall b: nat | b < n :: index[b].next < 0
    ensures Forest(Space(hash, n), index, [], map[], chains)
  {
    hide GoodSize, SlotOf;
    forall m: nat | m < n
      ensures Chain(Space(hash, n), index, [], m, chains[m])
    {
      NoLinks(Space(hash, n), index, [], m);
    }
  }

  lemma NoneAgree<K, V>(sp: Space<K>, index: seq<Cell>, pairs: seq<Option<Pair<K, V>>>)
    requires sp.n > 0 && |pairs| == sp.n && |index| == sp.n + 2
    requires forall b: nat | b < sp.n :: pairs[b].None? && index[b].next < 0
    ensures Agreement(sp, index, [], pairs, -1)
  {
  }

  lemma NoneMasked<K, V>(bits: seq<bool>, pairs: seq<Option<Pair<K, V>>>, n: nat)
    requires Padded(bits, n) && n <= |bits| && |pairs| == n && WordsOrLess(n)
    requires forall b: nat | b < n :: pairs[b].None? && bits[b]
    ensures MaskOf(bits, pairs, n, -1)
  {
  }

  lemma AgreementSize<K, V>(sp: Space<K>, index: seq<Cell>, keys: seq<K>, pairs: seq<Option<Pair<K, V>>>, but: int)
    requires Agreement(sp, index, keys, pairs, but)
    ensures |pairs| == sp.n
  {
  }

  lemma AgreeAfterOverwrite<K, V>(sp: Space<K>, index: seq<Cell>, keys: seq<K>, pairs: seq<Option<Pair<K, V>>>,
      b: nat, e: Entry<K, V>)
    requires Agreement(sp, index, keys, pairs, -1) && b < |pairs| && pairs[b].Some? && pairs[b].value.entry.key == e.key
    ensures Agreement(sp, index, keys, pairs[b := Some(pairs[b].value.(entry := e))], -1)
  {
    var pairs' := pairs[b := Some(pairs[b].value.(entry := e))];
    forall y: nat | y < sp.n
      ensures AgreeAt(sp, index, keys, pairs', y)
    {
      hide SlotOf;
      assert AgreeAt(sp, index, keys, pairs, y);
    }
  }

  lemma ContentsAfterOverwrite<K, V>(pairs: seq<Option<Pair<K, V>>>, b: nat, e: Entry<K, V>)
    requires b < |pairs| && pairs[b].Some?
    ensures Gather(EntriesOf(pairs[b := Some(pairs[b].value.(entry := e))])) + multiset{pairs[b].value.entry}
            == Gather(EntriesOf(pairs)) + multiset{e}
  {
    assert EntriesOf(pairs[b := Some(pairs[b].value.(entry := e))]) == EntriesOf(pairs)[b := Some(e)];
    GatherUpdate(EntriesOf(pairs), b, Some(e));
  }

  function WordOf(b: nat): nat { b / 64 }

  function LastWord(n: nat): nat
    requires n > 0
  {
    (n - 1) / 64
  }

  /** The set bits among `width` from `from` on. */
  function Window(bits: seq<bool>, from: nat, width: nat): (w: set<nat>)
    requires from + width <= |bits|
    ensures forall i: nat :: i in w <==> i < width && bits[from + i]
  {
    set i: nat | i < width && BitAt(bits, from, i)
  }

  lemma ByteFits(bits: seq<bool>, n: nat, from: nat)
    requires Padded(bits, n) && from < n
    ensures from % 8 < 8 && from + (64 - from % 8) <= |bits|
  {
    assert from - from % 8 <= n - 1;
  }

  /** A set bit is a bucket's. */
  lemma SetInside(bits: seq<bool>, n: nat, b: nat)
    requires Padded(bits, n) && b < |bits| && bits[b]
    ensures b < n
  {
  }

  lemma WordInside(bits: seq<bool>, n: nat, l: nat)
    requires Padded(bits, n) && n > 0 && l <= LastWord(n)
    ensures l * 64 + 64 <= |bits|
  {
    assert l * 64 <= n - 1;
    assert n <= (n + 7) / 8 * 8;
  }

  lemma InItsWord(bits: seq<bool>, n: nat, e: nat)
    requires Padded(bits, n) && e < n && n <= |bits| && bits[e]
    ensures WordOf(e) <= LastWord(n) && WordOf(e) * 64 + 64 <= |bits| && Word(bits, WordOf(e) * 64) != {}
  {
    WordInside(bits, n, e / 64);
    assert e / 64 * 64 + e % 64 == e;
    assert e % 64 in Word(bits, e / 64 * 64);
  }

  /** `last &= qmask` for a count of words that is a power of two. */
  lemma CycleWords(l: nat, q: nat, n: nat)
    requires GoodSize(n) && n > 0 && q == LastWord(n) && l <= q + 1
    ensures BitAnd(l, q) == if l == q + 1 then 0 else l
  {
    hide *;
    var w := WordsOf(q, n);
    MaskIsModulo(l, w);
    if l == q + 1 {
      DivModUnique(l, q + 1, 1, 0);
    } else {
      DivModUnique(l, q + 1, 0, l);
    }
  }

  lemma WordsOf(q: nat, n: nat) returns (w: nat)
    requires GoodSize(n) && n > 0 && q == LastWord(n)
    ensures q == Pow2(w) - 1
  {
    var p: nat :| 1 <= p <= 31 && n == Pow2(p);
    hide Pow2;
    WordCount(p);
    w := if p <= 6 then 0 else p - 6;
  }

  lemma WordCount(p: nat)
    ensures Pow2(6) == 64
    ensures (Pow2(p) - 1) / 64 + 1 == Pow2(if p <= 6 then 0 else p - 6)
  {
    assert Pow2(3) == 8;
    Pow2Sum(3, 3);
    if p <= 6 {
      Pow2Monotone(p, 6);
      assert Pow2(0) == 1;
    } else {
      Pow2Sum(6, p - 6);
      DivModUnique(Pow2(p) - 1, 64, Pow2(p - 6) - 1, 63);
    }
  }
}
