/** The emptiness bitmask of emhash7: 64-bit reads, the first set bit, and the iterator that walks the clear bits. */
module Bitmask {
  import opened LaneMasks

  /** Whole bytes for `n` buckets and eight more. */
  function PaddedLength(n: nat): nat {
    (n + 7) / 8 * 8 + 64
  }

  /** A set bit means an empty bucket; the bits past the buckets are clear. */
  ghost predicate Padded(bits: seq<bool>, n: nat) {
    |bits| == PaddedLength(n) && forall b: nat | n <= b < |bits| :: !bits[b]
  }

  lemma PaddedFacts(bits: seq<bool>, n: nat)
    requires Padded(bits, n)
    ensures n + 64 <= |bits| && (n % 64 == 0 ==> |bits| == n + 64)
    ensures forall b: nat | n <= b < |bits| :: !bits[b]
  {
  }

  /** Whole bytes set for a new table, clear bytes after them; less than a byte of buckets is set bit by bit. */
  method NewMask(n: nat) returns (bits: seq<bool>)
    requires n < 8 || n % 8 == 0
    ensures Padded(bits, n) && n <= |bits| && forall b: nat | b < n :: bits[b]
  {
    var maskByte := (n + 7) / 8;
    bits := seq(maskByte * 8 + 64, b => b < maskByte * 8);
    if 0 < n < 8 {
      bits := seq(8, b => b < n) + bits[8..];
    }
  }

  /** The same for a table in use: what lies past the whole bytes is clear already. */
  method SetBuckets(was: seq<bool>, n: nat) returns (bits: seq<bool>)
    requires Padded(was, n) && (n < 8 || n % 8 == 0)
    ensures Padded(bits, n) && n <= |bits| && forall b: nat | b < n :: bits[b]
  {
    var maskByte := (n + 7) / 8;
    bits := seq(maskByte * 8, b => true) + was[maskByte * 8..];
    if 0 < n < 8 {
      bits := seq(8, b => b < n) + bits[8..];
    }
  }

  predicate BitAt(bits: seq<bool>, from: nat, i: nat) {
    from + i < |bits| && bits[from + i]
  }

  /** The set bits among the 64 from `from` on. */
  function Word(bits: seq<bool>, from: nat): (w: set<nat>)
    requires from + 64 <= |bits|
    ensures forall i: nat :: i in w <==> i < 64 && bits[from + i]
  {
    set i: nat | i < 64 && BitAt(bits, from, i)
  }

  /** The 64-bit complement. */
  function Complement(w: set<nat>): (r: set<nat>)
    ensures forall i: nat :: i in r <==> i < 64 && i !in w
  {
    set i: nat | i < 64 && i !in w
  }

  // ----- the next filled bucket

  /** The first clear bit from `b` on; past the buckets that is the end position. */
  ghost function NextFilled(bits: seq<bool>, n: nat, b: nat): (r: nat)
    requires Padded(bits, n) && b < |bits|
    ensures b <= r < |bits| && !bits[r] && (b <= n ==> r <= n)
    ensures forall x: nat | b <= x < r :: bits[x]
    decreases |bits| - b
  {
    assert n < |bits|;
    if !bits[b] then b else NextFilled(bits, n, b + 1)
  }

  lemma NextFilledIs(bits: seq<bool>, n: nat, b: nat, r: nat)
    requires Padded(bits, n) && b <= r < |bits| && !bits[r] && forall x: nat | b <= x < r :: bits[x]
    ensures NextFilled(bits, n, b) == r
  {
  }

  /** A bucket, and, unless it is fresh, the start of its word with the clear bits of the word from the bucket on. */
  datatype Iterator = Iterator(bucket: nat, from: int, mask: set<nat>)

  const FRESH: int := -1

  /** The mask holds the clear bits of the word at `from`, from position `lo` on. */
  ghost predicate Masks(bits: seq<bool>, from: nat, lo: nat, mask: set<nat>) {
    && from % 64 == 0 && from + 64 <= |bits|
    && forall i: nat :: i in mask <==> i < 64 && from + i >= lo && !bits[from + i]
  }

  ghost predicate Ready(bits: seq<bool>, n: nat, it: Iterator) {
    && it.from >= 0 && it.from <= it.bucket < it.from + 64 && it.bucket <= n && it.bucket < |bits| && !bits[it.bucket]
    && Masks(bits, it.from, it.bucket, it.mask)
  }

  /** An iterator made from a bucket alone, or one that has its word. */
  ghost predicate Positioned(bits: seq<bool>, n: nat, it: Iterator) {
    Ready(bits, n, it) || (it.from == FRESH && it.bucket <= n && it.bucket < |bits| && !bits[it.bucket])
  }

  function WordStart(b: nat): nat { b / 64 * 64 }

  lemma WordStartFacts(b: nat)
    ensures WordStart(b) % 64 == 0 && WordStart(b) <= b < WordStart(b) + 64 && b % 64 == b - WordStart(b)
  {
  }

  /** The words of a mask reach past the last bucket. */
  lemma WordFits(bits: seq<bool>, n: nat, b: nat)
    requires Padded(bits, n) && b <= n
    ensures WordStart(b) + 64 <= |bits|
  {
  }

  method Init(bits: seq<bool>, n: nat, it: Iterator) returns (r: Iterator)
    requires Padded(bits, n) && it.bucket <= n
    ensures r.bucket == it.bucket && r.from == WordStart(it.bucket)
    ensures it.bucket < n ==> Masks(bits, r.from, it.bucket, r.mask)
    ensures it.bucket == n ==> r.mask == {}
  {
    hide Padded;
    PaddedFacts(bits, n);
    var from := WordStart(it.bucket);
    WordStartFacts(it.bucket);
    if it.bucket < n {
      WordFits(bits, n, it.bucket);
      var mask := Complement(Word(bits, from) + LowBits(it.bucket % 64));
      r := Iterator(it.bucket, from, mask);
    } else {
      r := Iterator(it.bucket, from, {});
    }
  }

  /** `(1ull << k) - 1`. */
  function LowBits(k: nat): (s: set<nat>)
    ensures forall i: nat :: i in s <==> i < k
  {
    if k == 0 then {} else LowBits(k - 1) + {k - 1}
  }

  /** Powers of two are whole words or fit in half of one. */
  ghost predicate WordsOrLess(n: nat) {
    n % 64 == 0 || n <= 32
  }

  lemma NextWord(bits: seq<bool>, n: nat, f: nat)
    requires Padded(bits, n) && n % 64 == 0 && f % 64 == 0 && f < n
    ensures f + 64 <= n && f + 128 <= |bits|
  {
    var a, b := n / 64, f / 64;
    assert n == 64 * a && f == 64 * b;
  }

  /** The only word of a small table shows the padding. */
  lemma SmallIsShown(bits: seq<bool>, n: nat, from: nat, lo: nat, mask: set<nat>)
    requires Padded(bits, n) && n <= 32 && Masks(bits, from, lo, mask) && from < n && lo <= n + 1
    ensures 63 in mask
  {
    assert from == 0;
    assert 63 in mask <==> 63 < 64 && 0 + 63 >= lo && !bits[0 + 63];
  }

  lemma WordsOnly(bits: seq<bool>, n: nat, from: nat, lo: nat, mask: set<nat>)
    requires Padded(bits, n) && WordsOrLess(n) && Masks(bits, from, lo, mask) && from < n
             && (n <= 32 ==> lo <= n + 1) && mask == {}
    ensures n % 64 == 0
  {
    if n <= 32 {
      SmallIsShown(bits, n, from, lo, mask);
    }
  }

  /** The first clear bit that the mask or, without one, a later word shows. */
  method GotoNextElement(bits: seq<bool>, n: nat, from: nat, mask: set<nat>, ghost lo: nat) returns (r: Iterator)
    requires Padded(bits, n) && WordsOrLess(n) && Masks(bits, from, lo, mask) && from <= lo <= from + 64 && from < n
    requires lo < |bits| && (n <= 32 ==> lo <= n + 1)
    ensures r.bucket == NextFilled(bits, n, lo)
    ensures r.bucket <= n ==> Ready(bits, n, r)
  {
    hide Padded, WordStart;
    PaddedFacts(bits, n);
    if mask != {} {
      var l := TrailingZeroCount(mask);
      ClearUpTo(bits, n, from, lo, mask);
      return Iterator(from + l, from, mask);
    }
    NoneInWord(bits, from, lo, mask);
    WordsOnly(bits, n, from, lo, mask);
    NextWord(bits, n, from);
    var f: nat, m := from + 64, Complement(Word(bits, from + 64));
    while m == {}
      invariant f % 64 == 0 && from < f <= n && Masks(bits, f, f, m) && forall x: nat | lo <= x < f :: bits[x]
      decreases n - f
    {
      NoneInWord(bits, f, f, m);
      assert bits[f];
      NextWord(bits, n, f);
      f := f + 64;
      m := Complement(Word(bits, f));
    }
    var l := TrailingZeroCount(m);
    assert forall x: nat | f <= x < f + l :: bits[x] by {
      forall x: nat | f <= x < f + l
        ensures bits[x]
      {
        assert x - f !in m;
        assert bits[f + (x - f)];
      }
    }
    NextFilledIs(bits, n, lo, f + l);
    MaskMoves(bits, f, f, m, l);
    return Iterator(f + l, f, m);
  }

  lemma NoneInWord(bits: seq<bool>, from: nat, lo: nat, mask: set<nat>)
    requires Masks(bits, from, lo, mask) && mask == {}
    ensures forall x: nat | lo <= x < from + 64 && from <= x :: bits[x]
  {
    forall x: nat | lo <= x < from + 64 && from <= x
      ensures bits[x]
    {
      assert x - from !in mask;
      assert from + (x - from) == x;
    }
  }

  lemma ClearUpTo(bits: seq<bool>, n: nat, from: nat, lo: nat, mask: set<nat>)
    requires Padded(bits, n) && Masks(bits, from, lo, mask) && from <= lo && mask != {} && lo < |bits|
    ensures NextFilled(bits, n, lo) == from + TrailingZeroCount(mask)
    ensures Masks(bits, from, from + TrailingZeroCount(mask), mask)
  {
    var l := TrailingZeroCount(mask);
    forall x: nat | lo <= x < from + l
      ensures bits[x]
    {
      assert x - from !in mask;
      assert from + (x - from) == x;
    }
    NextFilledIs(bits, n, lo, from + l);
    MaskMoves(bits, from, lo, mask, l);
  }

  lemma MaskMoves(bits: seq<bool>, from: nat, lo: nat, mask: set<nat>, l: nat)
    requires Masks(bits, from, lo, mask) && l in mask && forall y | y in mask :: l <= y
    ensures Masks(bits, from, from + l, mask)
  {
  }

  /** `_bmask &= _bmask - 1`: without its lowest bit. */
  function DropLowest(mask: set<nat>): set<nat> {
    if mask == {} then {} else ResetLowestSetBit(mask)
  }

  lemma DroppedMasks(bits: seq<bool>, from: nat, lo: nat, mask: set<nat>)
    requires Masks(bits, from, lo, mask) && from <= lo
    ensures mask != {} ==> Masks(bits, from, from + TrailingZeroCount(mask) + 1, DropLowest(mask))
    ensures mask == {} ==> DropLowest(mask) == mask
  {
  }

  /** From a filled bucket to the next one, or to the end. */
  method Increment(bits: seq<bool>, n: nat, it: Iterator) returns (r: Iterator)
    requires Padded(bits, n) && WordsOrLess(n) && Positioned(bits, n, it) && it.bucket < n
    ensures r.bucket == NextFilled(bits, n, it.bucket + 1) && Ready(bits, n, r)
  {
    hide Padded, Masks, WordStart;
    PaddedFacts(bits, n);
    var ready := it;
    if it.from == FRESH {
      ready := Init(bits, n, it);
      WordStartFacts(it.bucket);
    }
    LowestIsBucket(bits, ready.from, it.bucket, ready.mask);
    DroppedMasks(bits, ready.from, it.bucket, ready.mask);
    r := GotoNextElement(bits, n, ready.from, DropLowest(ready.mask), it.bucket + 1);
  }

  lemma LowestIsBucket(bits: seq<bool>, from: nat, b: nat, mask: set<nat>)
    requires Masks(bits, from, b, mask) && from <= b < from + 64 && !bits[b]
    ensures mask != {} && from + TrailingZeroCount(mask) == b
  {
    assert b - from in mask;
  }

  /** The first filled bucket, or the end. */
  method Begin(bits: seq<bool>, n: nat) returns (r: Iterator)
    requires Padded(bits, n) && WordsOrLess(n) && n > 0
    ensures r.bucket == NextFilled(bits, n, 0) && Positioned(bits, n, r)
  {
    hide Padded, WordStart;
    PaddedFacts(bits, n);
    var mask := Complement(Word(bits, 0));
    assert Masks(bits, 0, 0, mask);
    if mask != {} {
      ClearUpTo(bits, n, 0, 0, mask);
      return Iterator(TrailingZeroCount(mask), FRESH, {});
    }
    NoneInWord(bits, 0, 0, mask);
    WordsOnly(bits, n, 0, 0, mask);
    WordStartFacts(63);
    r := Init(bits, n, Iterator(63, FRESH, {}));
    r := GotoNextElement(bits, n, 0, r.mask, 63);
    assert forall x: nat | 0 <= x < 63 :: bits[x];
    NextFilledIs(bits, n, 0, r.bucket);
  }

  /** A fresh iterator, incremented after its own bucket has been emptied, is at the next filled bucket if and only if
      no clear bit of its word follows, of a bucket or of the padding: otherwise it has passed over that one and is at
      the next clear bit after it, which may lie past the end. */
  method IncrementEmptied(bits: seq<bool>, n: nat, it: Iterator) returns (r: Iterator)
    requires Padded(bits, n) && WordsOrLess(n) && it.from == FRESH && it.bucket < n && bits[it.bucket]
    ensures var next := NextFilled(bits, n, it.bucket + 1);
            && next + 1 < |bits|
            && r.bucket == (if next < WordStart(it.bucket) + 64 then NextFilled(bits, n, next + 1) else next)
            && (r.bucket == next <==> next >= WordStart(it.bucket) + 64)
    ensures r.bucket <= n ==> Ready(bits, n, r)
  {
    hide Padded, Masks, WordStart;
    PaddedFacts(bits, n);
    var ready := Init(bits, n, it);
    WordStartFacts(it.bucket);
    WordFits(bits, n, it.bucket);
    WithoutBucket(bits, ready.from, it.bucket, ready.mask);
    DroppedMasks(bits, ready.from, it.bucket + 1, ready.mask);
    ghost var next := NextFilled(bits, n, it.bucket + 1);
    if ready.mask == {} {
      NoneBefore(bits, ready.from, it.bucket + 1, ready.mask);
      r := GotoNextElement(bits, n, ready.from, ready.mask, it.bucket + 1);
    } else {
      ClearUpTo(bits, n, ready.from, it.bucket + 1, ready.mask);
      InWord(bits, ready.from, it.bucket + 1, ready.mask);
      r := GotoNextElement(bits, n, ready.from, DropLowest(ready.mask), next + 1);
    }
  }

  lemma WithoutBucket(bits: seq<bool>, from: nat, b: nat, mask: set<nat>)
    requires Masks(bits, from, b, mask) && from <= b < from + 64 && bits[b]
    ensures Masks(bits, from, b + 1, mask)
  {
  }

  lemma NoneBefore(bits: seq<bool>, from: nat, lo: nat, mask: set<nat>)
    requires Masks(bits, from, lo, mask) && mask == {} && from <= lo
    ensures forall x: nat | lo <= x < from + 64 :: bits[x]
  {
    NoneInWord(bits, from, lo, mask);
  }

  lemma InWord(bits: seq<bool>, from: nat, lo: nat, mask: set<nat>)
    requires Masks(bits, from, lo, mask) && mask != {}
    ensures TrailingZeroCount(mask) < 64 && from + 64 <= |bits|
  {
  }

  /** `clear(bucket)`: forgets a bucket of the iterator's word. */
  function ClearedIn(it: Iterator, e: nat): set<nat> {
    if it.bucket / 64 == e / 64 then it.mask - {e % 64} else it.mask
  }

  lemma InSameWord(from: nat, i: nat, e: nat)
    requires from % 64 == 0 && i < 64 && from + i == e
    ensures e / 64 == from / 64 && e % 64 == i && from / 64 * 64 == from
  {
  }

  lemma ReadyIs(bits: seq<bool>, n: nat, it: Iterator)
    requires Positioned(bits, n, it)
    ensures it.from != FRESH ==> Ready(bits, n, it)
    ensures it.bucket < |bits| && !bits[it.bucket]
  {
  }

  /** Another bucket emptied: the iterator stays where it is. */
  lemma StillPositioned(bits: seq<bool>, n: nat, it: Iterator, e: nat)
    requires Padded(bits, n) && Positioned(bits, n, it) && e < n <= |bits| && e != it.bucket
    ensures Positioned(bits[e := true], n, it.(mask := ClearedIn(it, e)))
  {
    if it.from != FRESH {
      assert Masks(bits, it.from, it.bucket, it.mask);
      InSameWord(it.from, it.bucket - it.from, it.bucket);
      assert Masks(bits[e := true], it.from, it.bucket, ClearedIn(it, e)) by {
        forall i: nat
          ensures i in ClearedIn(it, e) <==> i < 64 && it.from + i >= it.bucket && !bits[e := true][it.from + i]
        {
          if i < 64 && it.from + i == e {
            InSameWord(it.from, i, e);
          }
          if e / 64 == it.bucket / 64 {
            InSameWord(it.from, e % 64, it.from + e % 64);
          }
        }
      }
    }
  }

  /** The iterator's own bucket emptied after it has read its word. */
  method IncrementReady(bits: seq<bool>, ghost was: seq<bool>, n: nat, it: Iterator) returns (r: Iterator)
    requires Padded(was, n) && WordsOrLess(n) && Ready(was, n, it) && it.bucket < n
             && bits == was[it.bucket := true] && Padded(bits, n)
    ensures r.bucket == NextFilled(bits, n, it.bucket + 1) && Ready(bits, n, r)
  {
    hide Padded, Masks, WordStart;
    PaddedFacts(bits, n);
    LowestIsBucket(was, it.from, it.bucket, it.mask);
    DroppedMasks(was, it.from, it.bucket, it.mask);
    MasksAfter(bits, was, it.from, it.bucket, DropLowest(it.mask));
    r := GotoNextElement(bits, n, it.from, DropLowest(it.mask), it.bucket + 1);
  }

  lemma MasksAfter(bits: seq<bool>, was: seq<bool>, from: nat, b: nat, mask: set<nat>)
    requires Masks(was, from, b + 1, mask) && b < |was| && bits == was[b := true]
    ensures Masks(bits, from, b + 1, mask)
  {
  }

  // ----- a whole walk

  /** The buckets an iterator visits from position `b` on. */
  ghost function Walk(bits: seq<bool>, n: nat, b: nat): (s: seq<nat>)
    requires Padded(bits, n) && n < |bits| && b <= n
    decreases n - b
  {
    var x := NextFilled(bits, n, b);
    if x >= n then [] else [x] + Walk(bits, n, x + 1)
  }

  lemma AscendingFrom(x: nat, rest: seq<nat>)
    requires forall y :: y in rest ==> x < y
    requires forall i, j | 0 <= i < j < |rest| :: rest[i] < rest[j]
    ensures forall y :: y in [x] + rest <==> y == x || y in rest
    ensures forall i, j | 0 <= i < j < |[x] + rest| :: ([x] + rest)[i] < ([x] + rest)[j]
  {
    forall j | 0 <= j < |rest|
      ensures x < rest[j]
    {
      assert rest[j] in rest;
    }
  }

  lemma WalkStep(bits: seq<bool>, n: nat, b: nat)
    requires Padded(bits, n) && n < |bits| && b <= n
    ensures Walk(bits, n, b) == var x := NextFilled(bits, n, b); if x >= n then [] else [x] + Walk(bits, n, x + 1)
  {
  }

  /** A walk visits the filled buckets, each once, in ascending order, and ends at the number of buckets. */
  lemma {:induction false} WalkVisitsFilled(bits: seq<bool>, n: nat, b: nat)
    requires Padded(bits, n) && n < |bits| && b <= n
    ensures forall x :: x in Walk(bits, n, b) <==> b <= x < n && !bits[x]
    ensures forall i, j | 0 <= i < j < |Walk(bits, n, b)| :: Walk(bits, n, b)[i] < Walk(bits, n, b)[j]
    decreases n - b
  {
    hide *;
    WalkStep(bits, n, b);
    var x := NextFilled(bits, n, b);
    if x < n {
      WalkVisitsFilled(bits, n, x + 1);
      AscendingFrom(x, Walk(bits, n, x + 1));
    }
  }

  /** A fresh iterator at the first of two filled buckets passes over the second once the first is emptied. */
  lemma FreshPassesOver()
    ensures exists bits: seq<bool>, b: nat :: Padded(bits, 2) && b < 2 && bits[b]
                                              && NextFilled(bits, 2, b + 1) < WordStart(b) + 64
                                              && NextFilled(bits, 2, b + 1) < 2
  {
    var bits := [true] + seq(71, i => false);
    assert Padded(bits, 2);
    NextFilledIs(bits, 2, 1, 1);
    assert bits[0];
  }

  /** At the only filled bucket of two it passes over the end, since the padding bits are clear. */
  lemma FreshPassesEnd()
    ensures exists bits: seq<bool>, b: nat :: Padded(bits, 2) && b < 2 && bits[b]
                                              && NextFilled(bits, 2, b + 1) < WordStart(b) + 64
                                              && NextFilled(bits, 2, b + 1) == 2
  {
    var bits := [true, true] + seq(70, i => false);
    assert Padded(bits, 2);
    NextFilledIs(bits, 2, 1, 2);
    assert bits[0];
  }
}
