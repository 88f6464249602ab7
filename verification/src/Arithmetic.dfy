/** Powers of two, bitwise `and`, and the two ways a hash is reduced to an index. */
module Arithmetic {

  const TWO_TO_32: nat := 0x1_0000_0000
  const TWO_TO_64: nat := 0x1_0000_0000_0000_0000

  type Word64 = x: nat | x < TWO_TO_64

  function Pow2(p: nat): (r: nat)
    ensures r >= 1
  {
    if p == 0 then 1 else 2 * Pow2(p - 1)
  }

  lemma {:induction false} Pow2Sum(p: nat, q: nat)
    ensures Pow2(p + q) == Pow2(p) * Pow2(q)
  {
    if p == 0 {
    } else {
      Pow2Sum(p - 1, q);
      assert 2 * (Pow2(p - 1) * Pow2(q)) == (2 * Pow2(p - 1)) * Pow2(q);
    }
  }

  lemma {:induction false} Pow2Monotone(p: nat, q: nat)
    requires p <= q
    ensures Pow2(p) <= Pow2(q)
  {
    if p < q {
      Pow2Monotone(p, q - 1);
    }
  }

  lemma WordPowers()
    ensures Pow2(0) == 1 && Pow2(1) == 2 && Pow2(2) == 4 && Pow2(3) == 8 && Pow2(4) == 16 && Pow2(6) == 64
            && Pow2(16) == 0x1_0000
    ensures Pow2(31) == 0x8000_0000 && Pow2(32) == TWO_TO_32 && Pow2(64) == TWO_TO_64
  {
    assert Pow2(2) == 4;
    assert Pow2(4) == 16;
    Pow2Sum(3, 3);
    Pow2Sum(4, 3);
    Pow2Sum(4, 4);
    Pow2Sum(8, 7);
    Pow2Sum(8, 8);
    Pow2Sum(16, 15);
    Pow2Sum(16, 16);
    Pow2Sum(32, 32);
  }

  /** Bitwise `and` of two unsigned words, one bit at a time. */
  function BitAnd(a: nat, b: nat): nat {
    if a == 0 || b == 0 then 0
    else 2 * BitAnd(a / 2, b / 2) + (if a % 2 == 1 && b % 2 == 1 then 1 else 0)
  }

  lemma {:induction false} BitAndBelow(a: nat, b: nat)
    ensures BitAnd(a, b) <= a && BitAnd(a, b) <= b
  {
    if a != 0 && b != 0 {
      BitAndBelow(a / 2, b / 2);
    }
  }

  lemma MulMono(a: int, b: int, c: nat)
    requires a <= b
    ensures a * c <= b * c
  {
    assert (b - a) * c >= 0;
  }

  lemma MultipleBounds(n: int, d: int)
    requires n > 0
    ensures d >= 1 ==> n * d >= n
    ensures d <= -1 ==> n * d <= -n
  {
    if d >= 1 {
      MulMono(1, d, n);
    } else if d <= -1 {
      MulMono(d, -1, n);
    }
  }

  lemma QuotientNonNegative(a: nat, d: nat)
    requires d > 0
    ensures a / d >= 0
  {
    var q := a / d;
    assert a == d * q + a % d;
    MultipleBounds(d, q);
  }

  /** Division and remainder determine each other. */
  lemma DivModUnique(x: int, n: nat, q: int, r: int)
    requires n > 0 && 0 <= r < n && x == q * n + r
    ensures x / n == q && x % n == r
  {
    var d := x / n - q;
    assert x == n * (x / n) + x % n;
    assert n * d == r - x % n by {
      assert n * d == n * (x / n) - n * q;
    }
    MultipleBounds(n, d);
    assert d == 0;
    assert x / n == q;
    assert n * (x / n) == q * n;
  }

  lemma HalfModulo(a: nat, h: nat)
    requires h > 0
    ensures a % (2 * h) == 2 * (a / 2 % h) + a % 2
  {
    var q, r := a / 2 / h, a / 2 % h;
    assert a / 2 == h * q + r;
    assert 2 * (h * q) == q * (2 * h);
    DivModUnique(a, 2 * h, q, 2 * r + a % 2);
  }

  lemma OddMask(h: nat)
    requires h > 0
    ensures (2 * h - 1) / 2 == h - 1 && (2 * h - 1) % 2 == 1
  {
  }

  lemma {:induction false} MaskIsModulo(a: nat, p: nat)
    ensures BitAnd(a, Pow2(p) - 1) == a % Pow2(p)
  {
    if a == 0 {
      DivModUnique(0, Pow2(p), 0, 0);
    } else if p == 0 {
      DivModUnique(a, 1, a, 0);
    } else {
      var h := Pow2(p - 1);
      MaskIsModulo(a / 2, p - 1);
      OddMask(h);
      HalfModulo(a, h);
    }
  }

  lemma {:induction false} SubsetSize<T>(a: set<T>, b: set<T>)
    requires a <= b
    ensures |a| <= |b|
  {
    if a != {} {
      var x :| x in a;
      SubsetSize(a - {x}, b - {x});
    }
  }

  /** High word of a 64-bit product. */
  function UMulH(a: nat, b: nat): nat {
    a * b / TWO_TO_64
  }

  function CapacityMultiplier(d: nat): nat
    requires d > 0
  {
    (TWO_TO_64 - 1) / d + 1
  }

  /** The reduction used when the capacity is not handled by a mask. */
  function MultiplyReduce(a: nat, d: nat): nat
    requires d > 0
  {
    UMulH(CapacityMultiplier(d) * a % TWO_TO_64, d)
  }

  lemma HighWordInRange(low: nat, d: nat)
    requires d > 0 && low < TWO_TO_64
    ensures 0 <= UMulH(low, d) < d
  {
    var h := UMulH(low, d);
    MulMono(low, TWO_TO_64 - 1, d);
    assert low * d <= TWO_TO_64 * d - d;
    assert TWO_TO_64 * h <= low * d;
  }

  lemma MultiplyReduceInRange(a: nat, d: nat)
    requires d > 0
    ensures MultiplyReduce(a, d) < d
  {
    HighWordInRange(CapacityMultiplier(d) * a % TWO_TO_64, d);
  }

  /** The multiplier times the capacity overshoots 2^64 by less than the capacity. */
  lemma MultiplierExcess(d: nat)
    requires 0 < d
    ensures 0 <= CapacityMultiplier(d) * d - TWO_TO_64 < d
  {
    var q := (TWO_TO_64 - 1) / d;
    assert TWO_TO_64 - 1 == d * q + (TWO_TO_64 - 1) % d;
    assert (q + 1) * d == d * q + d;
  }

  lemma MultiplierLarge(d: nat)
    requires 0 < d <= 0x8000_0000
    ensures CapacityMultiplier(d) >= 0x2_0000_0000
  {
    var m := CapacityMultiplier(d);
    MultiplierExcess(d);
    MulMono(d, 0x8000_0000, m);
    assert m * d == d * m;
  }

  lemma SplitProduct(m: nat, a: nat, d: nat, q: nat, r: nat, t: nat, e: nat)
    requires m * d == t + e && a == d * q + r
    ensures m * a == q * t + (q * e + r * m)
  {
    calc {
      m * a;
      m * (d * q) + m * r;
      { assert m * (d * q) == (m * d) * q; }
      (t + e) * q + m * r;
    }
  }

  /** The low word of multiplier times `a`, for the quotient and remainder of `a`. */
  lemma LowWord(a: nat, d: nat, q: nat, r: nat)
    requires 0 < d <= 0x8000_0000 && a < TWO_TO_32 && a == d * q + r && r < d
    ensures var m := CapacityMultiplier(d); var e := m * d - TWO_TO_64;
            m * a % TWO_TO_64 == q * e + r * m
  {
    hide CapacityMultiplier;
    var m := CapacityMultiplier(d);
    MultiplierExcess(d);
    MultiplierLarge(d);
    var e: nat := m * d - TWO_TO_64;
    SplitProduct(m, a, d, q, r, TWO_TO_64, e);
    LowPartFits(m, d, e, q, r, a);
    DivModUnique(m * a, TWO_TO_64, q, q * e + r * m);
  }

  lemma LowPartFits(m: nat, d: nat, e: nat, q: nat, r: nat, a: nat)
    requires m * d == TWO_TO_64 + e && e < d && r < d && a == d * q + r && m >= 0x2_0000_0000 && a < TWO_TO_32
    ensures 0 <= q * e + r * m < TWO_TO_64
  {
    MulMono(e, d, q);
    MulMono(r, d - 1, m);
    MulMono(0, e, q);
    MulMono(0, r, m);
    assert (d - 1) * m == m * d - m;
    assert d * q <= a;
  }

  /** Multiplying that low word by the capacity leaves the remainder in the high word. */
  lemma HighWord(a: nat, d: nat, q: nat, r: nat)
    requires 0 < d <= 0x8000_0000 && a < TWO_TO_32 && a == d * q + r && r < d
    ensures var m := CapacityMultiplier(d); var e := m * d - TWO_TO_64;
            (q * e + r * m) * d / TWO_TO_64 == r
  {
    hide CapacityMultiplier;
    var m := CapacityMultiplier(d);
    MultiplierExcess(d);
    var e: nat := m * d - TWO_TO_64;
    LowTimesCapacity(m, d, e, q, r, TWO_TO_64);
    MulMono(0, e, a);
    MulMono(e, 0x8000_0000, a);
    DivModUnique((q * e + r * m) * d, TWO_TO_64, r, e * a);
  }

  lemma LowTimesCapacity(m: nat, d: nat, e: nat, q: nat, r: nat, t: nat)
    requires m * d == t + e
    ensures (q * e + r * m) * d == r * t + e * (d * q + r)
  {
    assert q * e * d == e * (d * q);
    assert r * m * d == r * (m * d);
  }

  /** For other capacities and large values it need not be: three quarters of 2^25, and the largest 64-bit value. */
  lemma LargeReduceIsNotModulo()
    ensures MultiplyReduce(TWO_TO_64 - 1, 0x180_0000) == 0x17F_FFFE
    ensures (TWO_TO_64 - 1) % 0x180_0000 == 0xFF_FFFF
  {
    DivModUnique(TWO_TO_64 - 1, 0x180_0000, 0xAA_AAAA_AAAA, 0xFF_FFFF);
    DivModUnique(0xAA_AAAA_AAAB * (TWO_TO_64 - 1), TWO_TO_64, 0xAA_AAAA_AAAA, 0xFFFF_FF55_5555_5555);
    DivModUnique(0xFFFF_FF55_5555_5555 * 0x180_0000, TWO_TO_64, 0x17F_FFFE, 0xFFFF_FFFF_FF80_0000);
  }

  lemma MultiplierOfDivisor(d: nat, m: nat)
    requires d > 0 && d * m == TWO_TO_64
    ensures CapacityMultiplier(d) == m
  {
    assert (m - 1) * d == d * m - d;
    DivModUnique(TWO_TO_64 - 1, d, m - 1, d - 1);
  }

  /** For a power of two the reduction is the remainder for every value. */
  lemma PowerReduceIsModulo(a: nat, p: nat)
    requires 1 <= p <= 63
    ensures MultiplyReduce(a, Pow2(p)) == a % Pow2(p)
  {
    hide Pow2, CapacityMultiplier, UMulH;
    var d, m := Pow2(p), Pow2(64 - p);
    Pow2Sum(p, 64 - p);
    WordPowers();
    MultiplierOfDivisor(d, m);
    DivModIs(a, d);
    LowOfPower(a, d, m, a / d, a % d);
    HighOfPower(d, m, a % d);
  }

  lemma DivModIs(a: nat, d: nat)
    requires d > 0
    ensures a == d * (a / d) + a % d && 0 <= a % d < d && a / d >= 0
  {
    QuotientNonNegative(a, d);
  }

  lemma LowOfPower(a: nat, d: nat, m: nat, q: nat, r: nat)
    requires d > 0 && d * m == TWO_TO_64 && a == d * q + r && r < d
    ensures m * a % TWO_TO_64 == m * r
  {
    assert m * a == q * TWO_TO_64 + m * r by {
      assert m * (d * q) == (d * m) * q;
    }
    assert m > 0;
    assert m * r < m * d by { MulMono(r + 1, d, m); }
    MulMono(0, r, m);
    DivModUnique(m * a, TWO_TO_64, q, m * r);
  }

  lemma HighOfPower(d: nat, m: nat, r: nat)
    requires d * m == TWO_TO_64
    ensures UMulH(m * r, d) == r
  {
    assert m * r * d == r * TWO_TO_64 + 0 by {
      assert m * r * d == r * (d * m);
    }
    DivModUnique(m * r * d, TWO_TO_64, r, 0);
  }

  lemma MultiplyReduceIsModulo(a: nat, d: nat)
    requires 0 < d <= 0x8000_0000 && a < TWO_TO_32
    ensures MultiplyReduce(a, d) == a % d
  {
    var q, r := a / d, a % d;
    assert a == d * q + r;
    LowWord(a, d, q, r);
    HighWord(a, d, q, r);
  }
}
