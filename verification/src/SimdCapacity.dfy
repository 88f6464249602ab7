/** Capacity and load-limit arithmetic of SimdHash. */
module SimdCapacity {
  import opened Arithmetic
  import opened SimdProbe
  import opened RoundingUp

  const MIN_LOAD_FACTOR: real := 0.75
  const MAX_LOAD_FACTOR: real := 0.99
  const DEF_LOAD_FACTOR: real := 0.9766

  const PAGE_SIZE: nat := 4096
  const MEGA: nat := 1024 * 1024

  // ----- AdjustCapacity

  /** In how many parts the upper half of a large power of two is divided. */
  function Parts(mode: Mode, ph: nat): nat {
    match mode
    case Fast => 1
    case FastDivMod => 1
    case SaveMemoryFast => 2
    case SaveMemoryOpt => 4
    case SaveMemoryMax => if ph <= 64 * MEGA then 4 else 8 * (ph / MEGA) / 128
  }

  function Share(h: nat, parts: nat, i: nat): nat
    requires parts > 0
  {
    h * i / parts
  }

  /** The `i`-th capacity between half of `ph` and `ph`. */
  function PartSize(ph: nat, parts: nat, i: nat): nat
    requires parts > 0
  {
    (Share(ph / 2, parts, i) + ph / 2) / PAGE_SIZE * PAGE_SIZE
  }

  function FirstFit(size: nat, ph: nat, parts: nat, i: nat): nat
    decreases parts - i
  {
    if i >= parts then ph
    else if size <= PartSize(ph, parts, i) then PartSize(ph, parts, i)
    else FirstFit(size, ph, parts, i + 1)
  }

  function AdjustedCapacity(mode: Mode, size: nat): nat {
    if size <= MIN_SIZE then MIN_SIZE
    else if size >= MAX_SIZE then MAX_SIZE
    else
      var ph := RoundUpToPowerOf2(size);
      if mode == Fast || mode == FastDivMod || ph <= 16 * MEGA then ph
      else FirstFit(size, ph, Parts(mode, ph), 1)
  }

  method AdjustCapacity(mode: Mode, size: nat) returns (capacity: nat)
    ensures capacity == AdjustedCapacity(mode, size)
  {
    if size <= MIN_SIZE { return MIN_SIZE; }
    if size >= MAX_SIZE { return MAX_SIZE; }
    if mode != Fast && mode != FastDivMod {
      var ph := RoundUp(size);
      if ph <= 16 * MEGA { return ph; }
      var pi := Parts(mode, ph);
      for i := 1 to pi
        invariant FirstFit(size, ph, pi, i) == FirstFit(size, ph, pi, 1)
      {
        var newSize := PartSize(ph, pi, i);
        if size <= newSize { return newSize; }
      }
    }
    capacity := RoundUp(size);
  }

  /** Part sizes rise with their number, and stay between half of the power of two and the whole. */
  lemma PartSizeRange(ph: nat, parts: nat, i: nat, j: nat)
    requires parts > 0 && i <= j <= parts && ph % (2 * PAGE_SIZE) == 0
    ensures ph / 2 <= PartSize(ph, parts, i) <= PartSize(ph, parts, j) <= ph
    ensures PartSize(ph, parts, i) % PAGE_SIZE == 0
  {
    hide Share;
    var h := ph / 2;
    ShareMonotone(h, parts, i, j);
    ShareMonotone(h, parts, j, parts);
    ShareWhole(h, parts);
    PageFloor(Share(h, parts, i) + h, Share(h, parts, j) + h, h);
  }

  lemma ShareMonotone(h: nat, parts: nat, i: nat, j: nat)
    requires parts > 0 && i <= j
    ensures Share(h, parts, i) <= Share(h, parts, j)
  {
    MulMono(i, j, h);
    assert h * i == i * h && h * j == j * h;
    QuotientMonotone(h * i, h * j, parts);
  }

  lemma ShareWhole(h: nat, parts: nat)
    requires parts > 0
    ensures Share(h, parts, parts) == h
  {
    DivModUnique(h * parts, parts, h, 0);
  }

  lemma QuotientMonotone(a: nat, b: nat, d: nat)
    requires d > 0 && a <= b
    ensures a / d <= b / d
  {
    var x, y := a / d, b / d;
    assert a == d * x + a % d && b == d * y + b % d;
    MultipleBounds(d, x - y);
    assert d * (x - y) == d * x - d * y;
  }

  lemma PageFloor(a: nat, b: nat, h: nat)
    requires h % PAGE_SIZE == 0 && h <= a <= b <= 2 * h
    ensures h <= a / PAGE_SIZE * PAGE_SIZE <= b / PAGE_SIZE * PAGE_SIZE <= 2 * h
  {
  }

  lemma {:induction false} FirstFitBounds(size: nat, ph: nat, parts: nat, i: nat)
    requires 0 < parts && i <= parts && size <= ph && ph % (2 * PAGE_SIZE) == 0
    ensures size <= FirstFit(size, ph, parts, i) <= ph
    ensures FirstFit(size, ph, parts, i) % PAGE_SIZE == 0
    decreases parts - i
  {
    if i < parts {
      PartSizeRange(ph, parts, i, i);
      FirstFitBounds(size, ph, parts, i + 1);
    }
  }

  lemma {:induction false} FirstFitMonotone(a: nat, b: nat, ph: nat, parts: nat, i: nat)
    requires 0 < parts && i <= parts && a <= b <= ph && ph % (2 * PAGE_SIZE) == 0
    ensures FirstFit(a, ph, parts, i) <= FirstFit(b, ph, parts, i)
    decreases parts - i
  {
    if i < parts {
      FirstFitMonotone(a, b, ph, parts, i + 1);
      if a <= PartSize(ph, parts, i) < b {
        FirstFitBounds(b, ph, parts, i + 1);
      }
    }
  }

  /** A capacity that fits a size fits itself. */
  lemma {:induction false} FirstFitStable(size: nat, ph: nat, parts: nat, i: nat)
    requires 0 < parts && i <= parts && size <= ph && ph % (2 * PAGE_SIZE) == 0
    ensures var r := FirstFit(size, ph, parts, i); FirstFit(r, ph, parts, i) == r
    decreases parts - i
  {
    if i < parts && size > PartSize(ph, parts, i) {
      FirstFitStable(size, ph, parts, i + 1);
      FirstFitBounds(size, ph, parts, i + 1);
    } else if i == parts {
      assert FirstFit(ph, ph, parts, i) == ph;
    }
  }

  /** Between the extremes the rounded size is a power of two from twice the page size up to the largest capacity. */
  lemma RoundedSize(size: nat) returns (p: nat)
    requires MIN_SIZE < size < MAX_SIZE
    ensures 13 <= p <= 31 && RoundUpToPowerOf2(size) == Pow2(p)
    ensures Pow2(p) % (2 * PAGE_SIZE) == 0 && Pow2(p) == 2 * Pow2(p - 1) && Pow2(p - 1) < size <= Pow2(p) <= MAX_SIZE
  {
    RoundUpIsLeast(size);
    p :| RoundUpToPowerOf2(size) == Pow2(p);
    PowerTable();
    if p <= 12 {
      Pow2Monotone(p, 12);
    }
    if p >= 32 {
      Pow2Monotone(32, p);
    }
    Pow2Monotone(p, 31);
    Pow2Sum(13, p - 13);
    assert Pow2(13) == 2 * PAGE_SIZE;
    DivModUnique(Pow2(p), 2 * PAGE_SIZE, Pow2(p - 13), 0);
  }

  lemma PartsPositive(mode: Mode, ph: nat)
    requires mode != Fast && mode != FastDivMod
    ensures Parts(mode, ph) > 0
  {
  }

  // ----- the steps between capacities

  /** Where the parts are whole pages the first that fits is the least multiple of a part that holds the size. */
  lemma {:induction false} FirstFitIsLeast(size: nat, ph: nat, parts: nat, u: nat, i: nat)
    requires 0 < i <= parts && ph == 2 * (parts * u) && u % PAGE_SIZE == 0 && u > 0
    requires parts * u + (i - 1) * u < size <= ph
    ensures var r := FirstFit(size, ph, parts, i); r % u == 0 && size <= r < size + u
    decreases parts - i
  {
    hide Share, PartSize;
    PartIsMultiple(ph, parts, u, i);
    MultipleIs(parts + i, u);
    MultipleIs(2 * parts, u);
    assert parts * u + (i - 1) * u == (parts + i) * u - u;
    assert 2 * parts * u == ph;
    if i == parts {
      assert (parts + parts) * u == ph;
    } else if size > PartSize(ph, parts, i) {
      assert (parts + i) * u == parts * u + i * u;
      FirstFitIsLeast(size, ph, parts, u, i + 1);
    }
  }

  lemma MultipleIs(k: nat, u: nat)
    requires u > 0
    ensures k * u % u == 0
  {
    DivModUnique(k * u, u, k, 0);
  }

  lemma PartIsMultiple(ph: nat, parts: nat, u: nat, i: nat)
    requires parts > 0 && ph == 2 * (parts * u) && u % PAGE_SIZE == 0 && u > 0
    ensures PartSize(ph, parts, i) == (parts + i) * u
  {
    var h := ph / 2;
    assert h * i == (u * i) * parts;
    DivModUnique(h * i, parts, u * i, 0);
    var pages := u / PAGE_SIZE;
    assert u == PAGE_SIZE * pages;
    assert (parts + i) * u == u * i + h;
    assert (parts + i) * (PAGE_SIZE * pages) == ((parts + i) * pages) * PAGE_SIZE;
    DivModUnique((parts + i) * u, PAGE_SIZE, (parts + i) * pages, 0);
  }

  lemma LargePowers(p: nat)
    requires 13 <= p <= 31
    ensures Pow2(p) <= 16 * MEGA <==> p <= 24
    ensures p == 25 ==> Pow2(p) == 32 * MEGA
    ensures p == 26 ==> Pow2(p) == 64 * MEGA
    ensures p == 27 ==> Pow2(p) == 128 * MEGA
    ensures p == 28 ==> Pow2(p) == 256 * MEGA
    ensures p == 29 ==> Pow2(p) == 512 * MEGA
    ensures p == 30 ==> Pow2(p) == 1024 * MEGA
    ensures p == 31 ==> Pow2(p) == 2048 * MEGA
  {
    WordPowers();
    Pow2Sum(16, 8);
    assert Pow2(8) == 256 by { Pow2Sum(4, 4); }
    hide Pow2;
    if p <= 24 {
      Pow2Monotone(p, 24);
    } else {
      Pow2Sum(24, p - 24);
      WordPowers();
    }
    if p >= 29 {
      Pow2Sum(4, 1);
      Pow2Sum(4, 3);
    }
  }

  /** The steps in which the modes that save memory choose capacities above 16 Mi slots, for the rounded-up power of
      two `ph`: a quarter of it, an eighth, or, in the last mode, an eighth up to 64 Mi and then 8 Mi slots. */
  function CapacityStep(mode: Mode, ph: nat): nat {
    if mode == SaveMemoryFast then ph / 4
    else if mode == SaveMemoryOpt || ph <= 64 * MEGA then ph / 8
    else 8 * MEGA
  }

  lemma StepDivides(mode: Mode, ph: nat)
    requires mode !in {Fast, FastDivMod}
    requires ph in {32 * MEGA, 64 * MEGA, 128 * MEGA, 256 * MEGA, 512 * MEGA, 1024 * MEGA, 2048 * MEGA}
    ensures var parts, step := Parts(mode, ph), CapacityStep(mode, ph);
            parts > 0 && step > 0 && step % PAGE_SIZE == 0 && ph == 2 * (parts * step) && parts * step == ph / 2
  {
    hide Parts;
    PartsAre(mode, ph);
    if mode == SaveMemoryFast {
      InParts(ph, 2, ph / 4);
    } else if mode == SaveMemoryOpt || ph <= 64 * MEGA {
      InParts(ph, 4, ph / 8);
    } else {
      InParts(ph, ph / MEGA / 16, 8 * MEGA);
    }
  }

  lemma PartsAre(mode: Mode, ph: nat)
    requires mode !in {Fast, FastDivMod}
    requires ph in {32 * MEGA, 64 * MEGA, 128 * MEGA, 256 * MEGA, 512 * MEGA, 1024 * MEGA, 2048 * MEGA}
    ensures Parts(mode, ph) == if mode == SaveMemoryFast then 2
            else if mode == SaveMemoryOpt || ph <= 64 * MEGA then 4 else ph / MEGA / 16
  {
  }

  lemma InParts(ph: nat, parts: nat, step: nat)
    requires ph in {32 * MEGA, 64 * MEGA, 128 * MEGA, 256 * MEGA, 512 * MEGA, 1024 * MEGA, 2048 * MEGA}
    requires (parts, step) in {(2, ph / 4), (4, ph / 8)} || (ph > 64 * MEGA && (parts, step) == (ph / MEGA / 16, 8 * MEGA))
    ensures parts > 0 && step > 0 && step % PAGE_SIZE == 0 && ph == 2 * (parts * step) && parts * step == ph / 2
  {
    if parts == 2 {
      assert parts * step == 2 * step;
    } else if parts == 4 {
      assert parts * step == 4 * step;
    } else {
      assert parts * step == parts * (8 * MEGA);
    }
  }

  /** Up to 16 Mi slots a capacity is the rounded-up power of two; above that the modes that save memory choose the least
      multiple of their step that holds the request. */
  lemma CapacitySteps(mode: Mode, size: nat)
    requires MIN_SIZE < size < MAX_SIZE
    ensures var r, ph := AdjustedCapacity(mode, size), RoundUpToPowerOf2(size);
            if mode in {Fast, FastDivMod} || ph <= 16 * MEGA then r == ph
            else var step := CapacityStep(mode, ph); step > 0 && r % step == 0 && size <= r < size + step
  {
    hide FirstFit, Pow2, RoundUpToPowerOf2, Parts, CapacityStep;
    var p := RoundedSize(size);
    LargePowers(p);
    if mode !in {Fast, FastDivMod} && p > 24 {
      var ph := RoundUpToPowerOf2(size);
      StepDivides(mode, ph);
      FirstFitIsLeast(size, ph, Parts(mode, ph), CapacityStep(mode, ph), 1);
    }
  }

  /** The adjusted capacity holds the request, in whole pages, without exceeding the rounded-up power of two. */
  lemma AdjustedBounds(mode: Mode, size: nat)
    ensures var r := AdjustedCapacity(mode, size);
            && MIN_SIZE <= r <= MAX_SIZE && r % PAGE_SIZE == 0
            && (size <= MAX_SIZE ==> size <= r)
            && (MIN_SIZE < size < MAX_SIZE ==> RoundUpToPowerOf2(size) / 2 < r <= RoundUpToPowerOf2(size))
  {
    hide Parts, FirstFit, Pow2, RoundUpToPowerOf2, PartSize;
    if MIN_SIZE < size < MAX_SIZE {
      var p := RoundedSize(size);
      var ph := Pow2(p);
      if mode != Fast && mode != FastDivMod {
        PartsPositive(mode, ph);
        FirstFitBounds(size, ph, Parts(mode, ph), 1);
      }
    }
  }

  lemma AdjustedMonotone(mode: Mode, a: nat, b: nat)
    requires a <= b
    ensures AdjustedCapacity(mode, a) <= AdjustedCapacity(mode, b)
  {
    hide Parts, FirstFit, Pow2, RoundUpToPowerOf2, PartSize;
    AdjustedBounds(mode, a);
    AdjustedBounds(mode, b);
    if MIN_SIZE < a && b < MAX_SIZE {
      var p := RoundedSize(a);
      var q := RoundedSize(b);
      if q < p {
        Pow2Monotone(q, p - 1);
      } else if q == p {
        if mode != Fast && mode != FastDivMod {
          PartsPositive(mode, Pow2(p));
          FirstFitMonotone(a, b, Pow2(p), Parts(mode, Pow2(p)), 1);
        }
      } else {
        Pow2Monotone(p, q - 1);
      }
    }
  }

  lemma AdjustedIdempotent(mode: Mode, size: nat)
    ensures AdjustedCapacity(mode, AdjustedCapacity(mode, size)) == AdjustedCapacity(mode, size)
  {
    hide Parts, FirstFit, Pow2, RoundUpToPowerOf2, PartSize;
    AdjustedBounds(mode, size);
    var r := AdjustedCapacity(mode, size);
    if MIN_SIZE < size < MAX_SIZE && r < MAX_SIZE {
      var p := RoundedSize(size);
      RoundUpUnique(r, p);
      if mode != Fast && mode != FastDivMod {
        PartsPositive(mode, Pow2(p));
        FirstFitStable(size, Pow2(p), Parts(mode, Pow2(p)), 1);
      }
    }
  }

  // ----- the growth limit

  function GrowthLimit(capacity: nat, maxLoadFactor: real): int {
    if capacity < MAX_SIZE then (capacity as real * maxLoadFactor).Floor else MAX_SIZE
  }

  /** The limit is the load factor's share of the slots, rounded down; the largest capacity has no other limit. */
  lemma LimitIsShare(capacity: nat, f: real)
    ensures capacity < MAX_SIZE ==>
              GrowthLimit(capacity, f) as real <= capacity as real * f < GrowthLimit(capacity, f) as real + 1.0
    ensures capacity >= MAX_SIZE ==> GrowthLimit(capacity, f) == MAX_SIZE
  {
  }

  lemma FirstLimit()
    ensures GrowthLimit(MIN_SIZE, DEF_LOAD_FACTOR) == 4000
  {
    assert MIN_SIZE as real * DEF_LOAD_FACTOR == 4000.1536;
  }

  /** Below the largest capacity the limit leaves at least one window free. */
  lemma LimitLeavesRoom(capacity: nat, f: real)
    requires MIN_SIZE <= capacity < MAX_SIZE && MIN_LOAD_FACTOR <= f <= MAX_LOAD_FACTOR
    ensures 0 < GrowthLimit(capacity, f) <= capacity - WINDOW
    ensures 4 * GrowthLimit(capacity, f) > 3 * capacity - 4
    ensures 100 * GrowthLimit(capacity, f) <= 99 * capacity
  {
    var x := capacity as real * f;
    ScaleBounds(capacity, f, x);
    FloorBounds(capacity, x);
  }

  /** Doubling the capacity raises the limit. */
  lemma LimitGrows(capacity: nat, f: real)
    requires MIN_SIZE <= capacity < MAX_SIZE && MIN_LOAD_FACTOR <= f <= MAX_LOAD_FACTOR
    ensures GrowthLimit(capacity, f) < GrowthLimit(2 * capacity, f)
  {
    LimitLeavesRoom(capacity, f);
    if 2 * capacity < MAX_SIZE {
      LimitLeavesRoom(2 * capacity, f);
    }
  }

  lemma FloorBounds(n: nat, x: real)
    requires n >= MIN_SIZE && n as real * 0.75 <= x <= n as real * 0.99
    ensures 0 < x.Floor <= n - WINDOW
    ensures 4 * x.Floor > 3 * n - 4 && 100 * x.Floor <= 99 * n
  {
    var k := x.Floor;
    assert k as real <= x < k as real + 1.0;
    assert (4 * k) as real == 4.0 * k as real && (3 * n) as real == 3.0 * n as real;
    assert (100 * k) as real == 100.0 * k as real && (99 * n) as real == 99.0 * n as real;
  }

  lemma ScaleBounds(n: nat, f: real, x: real)
    requires MIN_LOAD_FACTOR <= f <= MAX_LOAD_FACTOR && x == n as real * f
    ensures n as real * 0.75 <= x <= n as real * 0.99
  {
    var c := n as real;
    assert c * (f - 0.75) >= 0.0;
    assert c * (0.99 - f) >= 0.0;
  }

  lemma PowerTable()
    ensures Pow2(12) == MIN_SIZE && Pow2(31) == MAX_SIZE
  {
    assert Pow2(4) == 16 by { assert Pow2(2) == 4; }
    Pow2Sum(4, 4);
    Pow2Sum(8, 4);
    Pow2Sum(12, 12);
    assert Pow2(7) == 128 by { assert Pow2(7) == 8 * Pow2(4); }
    Pow2Sum(24, 7);
  }

  lemma DoubledCapacity(mode: Mode, p: nat)
    requires mode == Fast || mode == FastDivMod
    requires p >= 12 && Pow2(p) < MAX_SIZE
    ensures AdjustedCapacity(mode, Pow2(p) + 1) == 2 * Pow2(p)
  {
    PowerTable();
    Pow2Monotone(12, p);
    if p >= 31 {
      Pow2Monotone(31, p);
    }
    Pow2Monotone(p + 1, 31);
    RoundUpUnique(Pow2(p) + 1, p + 1);
  }
}
