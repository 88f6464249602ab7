/** The const iterator of SimdHash maps and sets: vector masks that step through the occupied slots. */
module SimdIterator {
  import opened Arithmetic
  import opened LaneMasks
  import opened SimdProbe
  import opened SimdSteps
  import opened SimdLayout
  import opened SimdCore

  /** The first occupied slot from `i` on, or `n` when there is none. */
  ghost function NextOccupied(tags: seq<Byte>, n: nat, i: nat): (r: nat)
    requires i <= n <= |tags|
    ensures i <= r <= n && (r < n ==> Occupied(tags[r])) && forall j | i <= j < r :: !Occupied(tags[j])
    decreases n - i
  {
    if i == n || Occupied(tags[i]) then i else NextOccupied(tags, n, i + 1)
  }

  /** The slots met by stepping from `i` with `NextOccupied` until the end. */
  ghost function Visited(tags: seq<Byte>, n: nat, i: nat): seq<nat>
    requires i <= n <= |tags|
    decreases n - i
  {
    var r := NextOccupied(tags, n, i);
    if r == n then [] else [r] + Visited(tags, n, r + 1)
  }

  /** Stepping visits every occupied slot once, in ascending order, and nothing else. */
  lemma {:induction false} VisitsAllOnce(tags: seq<Byte>, n: nat, i: nat)
    requires i <= n <= |tags|
    ensures var v := Visited(tags, n, i);
            && (forall a, b | 0 <= a < b < |v| :: v[a] < v[b])
            && (forall s :: s in v <==> i <= s < n && Occupied(tags[s]))
    decreases n - i
  {
    var r := NextOccupied(tags, n, i);
    if r < n {
      VisitsAllOnce(tags, n, r + 1);
      var rest := Visited(tags, n, r + 1);
      assert forall x | x in rest :: r < x;
      assert forall b | 0 <= b < |rest| :: rest[b] in rest;
    }
  }

  function VectorMask(source: seq<Byte>): set<nat> {
    set l: nat | l < |source| && Occupied(source[l])
  }

  /** Lanes of the vector at `base` that hold an occupied slot not below `p`. */
  ghost predicate MaskFrom(tags: seq<Byte>, base: nat, width: nat, p: nat, mask: set<nat>)
    requires base + width <= |tags|
  {
    && (forall l | l in mask :: l < width && base + l >= p && Occupied(tags[base + l]))
    && (forall i: nat | base <= i < base + width && i >= p && Occupied(tags[i]) :: i - base in mask)
  }

  lemma LoadedMask(tags: seq<Byte>, base: nat, width: nat)
    requires base + width <= |tags|
    ensures MaskFrom(tags, base, width, base, VectorMask(tags[base..base + width]))
  {
    var w := tags[base..base + width];
    forall i: nat | base <= i < base + width && Occupied(tags[i])
      ensures i - base in VectorMask(w)
    {
      assert w[i - base] == tags[i];
    }
  }

  /** The lowest lane of the mask is the next occupied slot. */
  lemma LowestIsNext(tags: seq<Byte>, n: nat, base: nat, width: nat, p: nat, mask: set<nat>)
    requires base <= p <= base + width <= n <= |tags| && mask != {} && MaskFrom(tags, base, width, p, mask)
    ensures var i := base + TrailingZeroCount(mask);
            && i < base + width && NextOccupied(tags, n, p) == i
            && MaskFrom(tags, base, width, i + 1, ResetLowestSetBit(mask))
  {
    var i := base + TrailingZeroCount(mask);
    forall j: nat | p <= j < i
      ensures !Occupied(tags[j])
    {
      assert j - base !in mask;
    }
    NextIs(tags, n, p, i);
  }

  lemma {:induction false} NextIs(tags: seq<Byte>, n: nat, p: nat, i: nat)
    requires p <= i <= n <= |tags| && (i < n ==> Occupied(tags[i])) && forall j | p <= j < i :: !Occupied(tags[j])
    ensures NextOccupied(tags, n, p) == i
    decreases i - p
  {
    if p < i {
      NextIs(tags, n, p + 1, i);
    }
  }

  /** An empty mask leaves nothing before the next vector. */
  lemma EmptyMaskSkips(tags: seq<Byte>, n: nat, base: nat, width: nat, p: nat)
    requires base <= p <= base + width <= n <= |tags| && MaskFrom(tags, base, width, p, {})
    ensures NextOccupied(tags, n, p) == NextOccupied(tags, n, base + width)
  {
    var r := NextOccupied(tags, n, base + width);
    assert forall j: nat | p <= j < base + width :: !Occupied(tags[j]);
    NextIs(tags, n, p, r);
  }

  predicate Divides(width: nat, x: nat) {
    width > 0 && x % width == 0
  }

  class ConstIterator<K(0,==), V(0)> {
    const core: Core<K, V>
    /** Vector width of the iteration: 16, 32 or 64. */
    const width: nat
    var idx: nat
    var base: nat
    var mask: set<nat>

    /** Slots below `p` are done; the mask holds what the current vector still has. */
    ghost predicate Ready(p: nat)
      reads this, core, core.tags
    {
      && core.Sized() && width in {16, 32, 64} && Divides(width, core.capacity)
      && Divides(width, base) && base < core.capacity
      && base <= p <= base + width
      && base + width <= core.capacity
      && MaskFrom(core.tags[..], base, width, p, mask)
    }

    ghost function Next(p: nat): nat
      requires core.Sized() && p <= core.capacity
      reads this, core, core.tags
    {
      NextOccupied(core.tags[..], core.capacity, p)
    }

    /** `begin()`: the first occupied slot; an empty table leaves it at 0, where `end()` is then as well. */
    constructor Begin(core: Core<K, V>, width: nat)
      requires core.Valid() && width in {16, 32, 64}
      ensures this.core == core && this.width == width
      ensures core.count == 0 ==> idx == 0
      ensures core.count != 0 ==> core.Sized() && idx == Next(0) && idx < core.capacity && Ready(idx + 1)
    {
      this.core := core;
      this.width := width;
      idx := 0;
      base := 0;
      mask := {};
      new;
      hide Inv, Contents, NextOccupied, MaskFrom, ProbeCapacity, GoodCapacity, VectorMask, Divides;
      VectorsFit(core.capacity, width);
      if core.count != 0 {
        mask := VectorMask(core.tags[0..width]);
        LoadedMask(core.tags[..], 0, width);
        assert core.tags[..][0..0 + width] == core.tags[0..width];
        SomeOccupied(core);
        Seek(0);
      }
    }

    static lemma SomeOccupied(core: Core<K, V>)
      requires core.Valid() && core.count != 0
      ensures NextOccupied(core.tags[..], core.capacity, 0) < core.capacity
    {
      var s := core.View();
      if forall i | 0 <= i < s.n :: !Occupied(s.tags[i]) {
        OccupantsEmpty(s.tags, s.entries, s.n);
        assert false;
      }
    }

    /** Moves to the next occupied slot, or to the capacity when there is none. */
    method Seek(ghost p: nat)
      requires core.Sized() && Ready(p)
      modifies this
      ensures idx == Next(p)
      ensures if idx < core.capacity then Ready(idx + 1) else idx == base == core.capacity
    {
      hide NextOccupied, MaskFrom, Divides, VectorMask, ProbeCapacity, GoodCapacity;
      ghost var q := p;
      while true
        invariant Ready(q) && p <= q && Next(q) == Next(p)
        decreases core.capacity - base
      {
        if mask != {} {
          LowestIsNext(core.tags[..], core.capacity, base, width, q, mask);
          idx := base + TrailingZeroCount(mask);
          mask := ResetLowestSetBit(mask);
          return;
        }
        EmptyMaskSkips(core.tags[..], core.capacity, base, width, q);
        NextVector(core.capacity, width, base);
        base := base + width;
        if base >= core.capacity {
          idx := base;
          return;
        }
        q := base;
        LoadedMask(core.tags[..], base, width);
        mask := VectorMask(core.tags[base..base + width]);
        assert core.tags[..][base..base + width] == core.tags[base..base + width];
      }
    }

    /** `operator++` on an iterator that is not at the end. */
    method Increment()
      requires core.Sized() && idx < core.capacity && Ready(idx + 1)
      modifies this
      ensures idx == old(Next(idx + 1))
      ensures if idx < core.capacity then Ready(idx + 1) else idx == core.capacity
    {
      Seek(idx + 1);
    }
  }

  lemma CapacityAligned(n: nat)
    requires ProbeCapacity(n)
    ensures n % 64 == 0 && n > 0
  {
    var p: nat :| p >= 12 && n == Pow2(p);
    SplitCapacity(p);
  }

  lemma Multiples(n: nat, width: nat, c: nat)
    requires width > 0 && n == c * width && n > 0
    ensures Divides(width, n) && Divides(width, 0) && width <= n
  {
    DivModUnique(n, width, c, 0);
    DivModUnique(0, width, 0, 0);
    MulMono(1, c, width);
  }

  lemma VectorsFit(n: nat, width: nat)
    requires ProbeCapacity(n) && width in {16, 32, 64}
    ensures Divides(width, n) && Divides(width, 0) && width <= n
  {
    hide *;
    CapacityAligned(n);
    var q := n / 64;
    assert n == 64 * q;
    if width == 16 {
      Multiples(n, 16, 4 * q);
    } else if width == 32 {
      Multiples(n, 32, 2 * q);
    } else {
      Multiples(n, 64, q);
    }
  }

  lemma NextVector(n: nat, width: nat, base: nat)
    requires width in {16, 32, 64} && Divides(width, n) && Divides(width, base) && base < n
    ensures Divides(width, base + width) && base + width <= n
    ensures base + width < n ==> base + width + width <= n
  {
    if width == 16 {
      Aligned(n, 16, base, n / 16, base / 16);
    } else if width == 32 {
      Aligned(n, 32, base, n / 32, base / 32);
    } else {
      Aligned(n, 64, base, n / 64, base / 64);
    }
  }

  lemma Aligned(n: nat, width: nat, base: nat, a: nat, b: nat)
    requires width > 0 && n == width * a && base == width * b && base < n
    ensures (base + width) % width == 0 && base + width <= n
    ensures base + width < n ==> base + width + width <= n
  {
    assert base + width == (b + 1) * width + 0;
    DivModUnique(base + width, width, b + 1, 0);
    if a <= b {
      MulMono(a, b, width);
    }
    MulMono(b + 1, a, width);
    if a > b + 1 {
      MulMono(b + 2, a, width);
    }
  }
}
