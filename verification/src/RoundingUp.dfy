/** Rounding up to a power of two, and that smearing the highest set bit over the lower ones does it. */
module RoundingUp {
  import opened Arithmetic
  import opened SimdProbe

  function RoundUpToPowerOf2(v: nat): nat {
    if v <= 1 then v else 2 * RoundUpToPowerOf2((v + 1) / 2)
  }

  /** The least power of two that is not below the value. */
  lemma {:induction false} RoundUpIsLeast(v: nat)
    requires v > 0
    ensures IsPow2(RoundUpToPowerOf2(v))
    ensures v <= RoundUpToPowerOf2(v) < 2 * v
  {
    if v == 1 {
      assert 1 == Pow2(0);
    } else {
      RoundUpIsLeast((v + 1) / 2);
      var p: nat :| RoundUpToPowerOf2((v + 1) / 2) == Pow2(p);
      assert RoundUpToPowerOf2(v) == Pow2(p + 1);
    }
  }

  /** A value between a power of two and half of it rounds up to that power. */
  lemma RoundUpUnique(v: nat, p: nat)
    requires p > 0 && Pow2(p - 1) < v <= Pow2(p)
    ensures RoundUpToPowerOf2(v) == Pow2(p)
  {
    RoundUpIsLeast(v);
    var q: nat :| RoundUpToPowerOf2(v) == Pow2(q);
    if q < p {
      Pow2Monotone(q, p - 1);
    } else if q > p {
      Pow2Monotone(p + 1, q);
    }
  }

  // ----- smearing

  /** Bitwise `or` of two unsigned words, one bit at a time. */
  function BitOr(a: nat, b: nat): nat
    decreases a + b
  {
    if a == 0 && b == 0 then 0
    else 2 * BitOr(a / 2, b / 2) + (if a % 2 == 1 || b % 2 == 1 then 1 else 0)
  }

  lemma {:induction false} BitAndSelf(a: nat)
    ensures BitAnd(a, a) == a
  {
    if a > 0 {
      BitAndSelf(a / 2);
    }
  }

  /** A word without two set bits is a power of two. */
  lemma {:induction false} NoLowerBit(v: nat)
    requires v > 0 && BitAnd(v, v - 1) == 0
    ensures IsPow2(v)
  {
    if v % 2 == 1 {
      BitAndSelf(v / 2);
      assert (v - 1) / 2 == v / 2;
      assert v == Pow2(0);
    } else {
      assert (v - 1) / 2 == v / 2 - 1;
      NoLowerBit(v / 2);
      var p: nat :| v / 2 == Pow2(p);
      assert v == Pow2(p + 1);
    }
  }

  lemma {:induction false} HighestBit(x: nat) returns (k: nat)
    requires x > 0
    ensures Pow2(k) <= x < Pow2(k + 1)
  {
    if x == 1 {
      k := 0;
    } else {
      var j := HighestBit(x / 2);
      k := j + 1;
    }
  }

  lemma HalfTimes(a: nat, h: nat)
    requires h > 0
    ensures a / (2 * h) == a / 2 / h
  {
    var q, r := a / 2 / h, a / 2 % h;
    assert a / 2 == h * q + r;
    assert 2 * (h * q) == q * (2 * h);
    QuotientNonNegative(a / 2, h);
    DivModUnique(a, 2 * h, q, 2 * r + a % 2);
  }

  function Shr(a: nat, m: nat): nat {
    QuotientNonNegative(a, Pow2(m));
    a / Pow2(m)
  }

  lemma {:induction false} OrShifted(a: nat, b: nat, m: nat)
    ensures Shr(BitOr(a, b), m) == BitOr(Shr(a, m), Shr(b, m))
  {
    if m > 0 {
      HalfTimes(a, Pow2(m - 1));
      HalfTimes(b, Pow2(m - 1));
      HalfTimes(BitOr(a, b), Pow2(m - 1));
      OrShifted(a / 2, b / 2, m - 1);
      assert BitOr(a, b) / 2 == BitOr(a / 2, b / 2);
    }
  }

  /** Ones below a boundary fill whatever is there. */
  lemma {:induction false} OrFills(h: nat, u: nat, q: nat)
    requires q < Pow2(u)
    ensures BitOr(h * Pow2(u) + q, Pow2(u) - 1) == h * Pow2(u) + Pow2(u) - 1
  {
    hide BitOr, Pow2;
    if u == 0 {
      PowerZero();
      OrZero(h);
    } else {
      PowerStep(u);
      OrFills(h, u - 1, q / 2);
      Halves(h, Pow2(u - 1), q);
      OrOfOdd(h * Pow2(u) + q, Pow2(u) - 1);
    }
  }

  lemma PowerZero()
    ensures Pow2(0) == 1
  {
  }

  lemma PowerStep(u: nat)
    requires u > 0
    ensures Pow2(u) == 2 * Pow2(u - 1)
  {
  }

  lemma Halves(h: nat, w: nat, q: nat)
    requires w > 0
    ensures (h * (2 * w) + q) / 2 == h * w + q / 2 && (2 * w - 1) / 2 == w - 1 && (2 * w - 1) % 2 == 1
    ensures 2 * (h * w + w - 1) + 1 == h * (2 * w) + 2 * w - 1
  {
    assert h * (2 * w) == 2 * (h * w);
  }

  lemma OrOfOdd(a: nat, b: nat)
    requires b % 2 == 1
    ensures BitOr(a, b) == 2 * BitOr(a / 2, b / 2) + 1
  {
  }

  lemma {:induction false} OrZero(a: nat)
    ensures BitOr(a, 0) == a
  {
    if a > 0 {
      OrZero(a / 2);
    }
  }

  /** All bits from the `t`-th to the highest, the `k`-th, are set. */
  ghost predicate Smeared(x: nat, k: nat, t: nat) {
    t <= k && Shr(x, t) == Pow2(k + 1 - t) - 1
  }

  lemma ShrSplits(h: nat, t: nat, r: nat)
    requires r < Pow2(t)
    ensures Shr(h * Pow2(t) + r, t) == h
  {
    DivModUnique(h * Pow2(t) + r, Pow2(t), h, r);
  }

  lemma ShrParts(x: nat, t: nat) returns (r: nat)
    ensures r < Pow2(t) && x == Shr(x, t) * Pow2(t) + r
  {
    r := x % Pow2(t);
  }

  lemma Regroup(q: nat, a: nat, b: nat, r': nat, r: nat)
    requires r < a && r' < b
    ensures (q * b + r') * a + r == q * (a * b) + (r' * a + r)
    ensures r' * a + r < a * b
  {
    assert (q * b + r') * a == q * b * a + r' * a;
    assert q * b * a == q * (a * b);
    MulMono(r' + 1, b, a);
    assert (r' + 1) * a == r' * a + a;
  }

  lemma ShrTwice(x: nat, s: nat, t: nat)
    ensures Shr(Shr(x, s), t) == Shr(x, s + t)
  {
    hide Pow2, Shr;
    var r := ShrParts(x, s);
    var r' := ShrParts(Shr(x, s), t);
    var q := Shr(Shr(x, s), t);
    Pow2Sum(s, t);
    Regroup(q, Pow2(s), Pow2(t), r', r);
    ShrSplits(q, s + t, r' * Pow2(s) + r);
  }

  /** One smearing step doubles the run of ones below the highest bit. */
  lemma SmearStep(x: nat, k: nat, t: nat, s: nat)
    requires Smeared(x, k, t) && s > 0 && (t == 0 || s == k + 1 - t)
    ensures Smeared(BitOr(x, Shr(x, s)), k, if t <= s then 0 else t - s)
  {
    hide Pow2, BitOr, Shr;
    var t' := if t <= s then 0 else t - s;
    OrShifted(x, Shr(x, s), t');
    ShrTwice(x, s, t');
    var u := if t == 0 then 0 else t - t';
    if t == 0 {
      FullStays(x, k, s);
    } else {
      var a := Shr(x, t');
      ShrTwice(x, t', u);
      var q := ShrParts(a, u);
      UpperOnes(x, k, t, s, t', u);
      OrFills(Pow2(s) - 1, u, q);
      Pow2Sum(s, u);
      OnesJoin(Pow2(s), Pow2(u));
    }
  }

  lemma OnesJoin(a: nat, b: nat)
    requires a > 0 && b > 0
    ensures (a - 1) * b + b - 1 == a * b - 1
  {
  }

  /** What is shifted in below the boundary is all ones. */
  lemma UpperOnes(x: nat, k: nat, t: nat, s: nat, t': nat, u: nat)
    requires Smeared(x, k, t) && t > 0 && s == k + 1 - t && t' == (if t <= s then 0 else t - s) && u == t - t'
    ensures Shr(x, s + t') == Pow2(u) - 1
  {
    hide Pow2, Shr;
    if t > s {
      assert s + t' == t && u == s;
    } else {
      ShrTwice(x, t, s - t);
      OnesShifted(s, s - t);
      assert s + t' == t + (s - t);
    }
  }

  lemma {:induction false} OnesShifted(s: nat, d: nat)
    requires d <= s
    ensures Shr(Pow2(s) - 1, d) == Pow2(s - d) - 1
  {
    hide Pow2, Shr;
    Pow2Sum(s - d, d);
    OnesJoin(Pow2(s - d), Pow2(d));
    ShrSplits(Pow2(s - d) - 1, d, Pow2(d) - 1);
  }

  lemma FullStays(x: nat, k: nat, s: nat)
    requires Smeared(x, k, 0)
    ensures Smeared(BitOr(x, Shr(x, s)), k, 0)
  {
    hide Pow2, BitOr, Shr;
    ShrNothing(x);
    ShrNothing(BitOr(x, Shr(x, s)));
    ShrBelow(x, s);
    var y := Shr(x, s);
    OrFills(0, k + 1, y);
    OrCommutes(x, y);
  }

  lemma {:induction false} OrCommutes(a: nat, b: nat)
    ensures BitOr(a, b) == BitOr(b, a)
    decreases a + b
  {
    if a > 0 || b > 0 {
      OrCommutes(a / 2, b / 2);
    }
  }

  lemma ShrNothing(x: nat)
    ensures Shr(x, 0) == x
  {
  }

  lemma ShrBelow(x: nat, s: nat)
    ensures Shr(x, s) <= x
  {
    var r := ShrParts(x, s);
    MulMono(1, Pow2(s), Shr(x, s));
  }

  lemma HighestIsSmeared(x: nat, k: nat)
    requires Pow2(k) <= x < Pow2(k + 1)
    ensures Smeared(x, k, k)
  {
    ShrSplits(1, k, x - Pow2(k));
    assert Pow2(1) == 2;
  }

  /** `RoundUpToPowerOf2` on 32-bit words: the least power of two that is not below the value, and zero when that does
      not fit. */
  method RoundUp(value: nat) returns (r: nat)
    requires value < TWO_TO_32
    ensures r == RoundUpToPowerOf2(value) % TWO_TO_32
    ensures value <= MAX_SIZE ==> r == RoundUpToPowerOf2(value)
  {
    hide BitOr, BitAnd, Pow2, Shr, RoundUpToPowerOf2;
    RoundsZero();
    if value == 0 || BitAnd(value, value - 1) == 0 {
      if value > 0 {
        NoLowerBit(value);
        PowerRoundsToItself(value);
      }
      SmallModulo(value);
      return value;
    }
    AndOne();
    var x := value - 1;
    ghost var k := HighestBit(x);
    HighestIsSmeared(x, k);
    FitsWord(k, value);
    SmearStep(x, k, k, 1);
    x := BitOr(x, Shr(x, 1));
    SmearStep(x, k, if k <= 1 then 0 else k - 1, 2);
    x := BitOr(x, Shr(x, 2));
    SmearStep(x, k, if k <= 3 then 0 else k - 3, 4);
    x := BitOr(x, Shr(x, 4));
    SmearStep(x, k, if k <= 7 then 0 else k - 7, 8);
    x := BitOr(x, Shr(x, 8));
    SmearStep(x, k, if k <= 15 then 0 else k - 15, 16);
    x := BitOr(x, Shr(x, 16));
    ShrNothing(x);
    RoundUpUnique(value, k + 1);
    r := (x + 1) % TWO_TO_32;
  }

  lemma RoundsZero()
    ensures RoundUpToPowerOf2(0) == 0
  {
  }

  lemma SmallModulo(v: nat)
    requires v < TWO_TO_32
    ensures v % TWO_TO_32 == v
  {
  }

  lemma AndOne()
    ensures BitAnd(1, 0) == 0
  {
  }

  lemma PowerRoundsToItself(v: nat)
    requires IsPow2(v) && v > 0
    ensures RoundUpToPowerOf2(v) == v
  {
    hide Pow2, RoundUpToPowerOf2;
    RoundUpIsLeast(v);
    var p: nat :| v == Pow2(p);
    var q: nat :| RoundUpToPowerOf2(v) == Pow2(q);
    if p < q {
      Pow2Monotone(p + 1, q);
      Pow2Sum(1, p);
      WordPowers();
    }
    if q < p {
      Pow2Monotone(q, p);
    }
  }

  lemma FitsWord(k: nat, value: nat)
    requires Pow2(k) <= value - 1 && value < TWO_TO_32
    ensures k <= 31 && Pow2(k + 1) <= TWO_TO_32
    ensures value <= MAX_SIZE ==> Pow2(k + 1) <= MAX_SIZE
  {
    hide Pow2;
    WordPowers();
    if k >= 32 {
      Pow2Monotone(32, k);
    }
    Pow2Monotone(k + 1, 32);
    if value <= MAX_SIZE {
      if k >= 31 {
        Pow2Monotone(31, k);
      }
      Pow2Monotone(k + 1, 31);
    }
  }

}
