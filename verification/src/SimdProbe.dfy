/** The probe sequence of SimdHash: where it goes and which slots its windows cover. */
module SimdProbe {
  import opened Arithmetic

  const WINDOW: nat := 16
  const MIN_SIZE: nat := 4096
  const MAX_SIZE: nat := 0x8000_0000

  /** How a capacity is chosen and a hash reduced. */
  datatype Mode = Fast | FastDivMod | SaveMemoryFast | SaveMemoryOpt | SaveMemoryMax

  function AdjustTupleIndex(mode: Mode, n: nat, x: nat): nat
    requires n > 0
  {
    if mode == Fast then BitAnd(x, n - 1) else MultiplyReduce(x, n)
  }

  ghost predicate IsPow2(n: nat) {
    exists p: nat :: n == Pow2(p)
  }

  /** Capacities the reduction is meant for: the mask needs a power of two. */
  ghost predicate GoodCapacity(mode: Mode, n: nat) {
    && WINDOW <= n <= MAX_SIZE
    && n % WINDOW == 0
    && (mode == Fast ==> IsPow2(n))
  }

  /** A reduced hash is a slot, and a probe step is addition modulo the capacity. */
  lemma AdjustIsReduction(mode: Mode, n: nat, x: nat)
    requires GoodCapacity(mode, n)
    ensures AdjustTupleIndex(mode, n, x) < n
    ensures x < TWO_TO_32 ==> AdjustTupleIndex(mode, n, x) == Wrap(x, n)
  {
    if mode == Fast {
      var p: nat :| n == Pow2(p);
      MaskIsModulo(x, p);
    } else {
      MultiplyReduceInRange(x, n);
      if x < TWO_TO_32 {
        MultiplyReduceIsModulo(x, n);
      }
    }
  }

  /** The value of the `uint8_t` jump after `k` increments by the window size. */
  function Jump(k: nat): (j: nat)
    ensures j < 256 && j % WINDOW == 0
  {
    WINDOW * k % 256
  }

  lemma JumpStep(k: nat)
    ensures Jump(k + 1) == (Jump(k) + WINDOW) % 256
  {
    var q := 16 * k / 256;
    assert 16 * k == 256 * q + Jump(k);
    DivModUnique(16 * (k + 1), 256, q + (Jump(k) + 16) / 256, (Jump(k) + 16) % 256);
  }

  function Wrap(x: nat, n: nat): (r: nat)
    requires n > 0
    ensures r < n
  {
    x % n
  }

  /** Start of the `k`-th window of a probe that starts at `s`. */
  function Pos(s: nat, k: nat, n: nat): (p: nat)
    requires s < n
    ensures p < n
  {
    if k == 0 then s else Wrap(Pos(s, k - 1, n) + Jump(k), n)
  }

  function Triangle(r: nat): nat { r * (r + 1) / 2 }

  /** Sum of the first `k` jumps: each round of sixteen adds 1920. */
  function JumpSum(k: nat): nat {
    1920 * (k / 16) + 16 * Triangle(k % 16)
  }

  lemma JumpSumStep(k: nat)
    ensures JumpSum(k + 1) == JumpSum(k) + Jump(k + 1)
  {
    var m, r := k / 16, k % 16;
    assert k == 16 * m + r;
    if r == 15 {
      DivModUnique(16 * (k + 1), 256, m + 1, 0);
      assert (k + 1) / 16 == m + 1 && (k + 1) % 16 == 0;
    } else {
      DivModUnique(16 * (k + 1), 256, m, 16 * (r + 1));
      assert (k + 1) / 16 == m && (k + 1) % 16 == r + 1;
      assert Triangle(r + 1) == Triangle(r) + r + 1;
    }
  }

  lemma WrapAdds(a: nat, b: nat, n: nat)
    requires n > 0
    ensures Wrap(Wrap(a, n) + b, n) == Wrap(a + b, n)
  {
    var q := a / n;
    assert a == n * q + a % n;
    var c := a % n + b;
    assert c == n * (c / n) + c % n;
    assert n * q + n * (c / n) == (q + c / n) * n;
    DivModUnique(a + b, n, q + c / n, c % n);
  }

  lemma JumpSumZero()
    ensures JumpSum(0) == 0
  {
  }

  lemma WrapSmall(s: nat, n: nat)
    requires s < n
    ensures Wrap(s, n) == s
  {
    DivModUnique(s, n, 0, s);
  }

  lemma {:induction false} PosClosedForm(s: nat, k: nat, n: nat)
    requires s < n
    ensures Pos(s, k, n) == Wrap(s + JumpSum(k), n)
  {
    hide JumpSum, Jump, Wrap;
    if k == 0 {
      JumpSumZero();
      WrapSmall(s, n);
    } else {
      PosClosedForm(s, k - 1, n);
      JumpSumStep(k - 1);
      WrapAdds(s + JumpSum(k - 1), Jump(k), n);
    }
  }

  /** A jump reduced modulo a multiple of the window size keeps the residue. */
  lemma StepResidue(a: nat, jump: nat, n: nat)
    requires n > 0 && n % WINDOW == 0 && jump % WINDOW == 0
    ensures Wrap(a + jump, n) % WINDOW == a % WINDOW
  {
    hide Wrap;
    var k := WrapByWindows(a + jump, n);
    SameResidue(a, Wrap(a + jump, n), k - jump / WINDOW);
  }

  lemma WrapByWindows(x: nat, n: nat) returns (k: int)
    requires n > 0 && n % WINDOW == 0
    ensures x == Wrap(x, n) + WINDOW * k
  {
    var c, q := n / WINDOW, x / n;
    k := c * q;
    assert n * q == WINDOW * (c * q);
  }

  lemma SameResidue(a: nat, b: nat, k: int)
    requires a == b + WINDOW * k
    ensures a % WINDOW == b % WINDOW
  {
  }

  /** Windows never wrap, so a probe keeps the residue of its start and never goes below it. */
  lemma {:induction false} PosResidue(s: nat, k: nat, n: nat)
    requires s < n && n % WINDOW == 0
    ensures Pos(s, k, n) % WINDOW == s % WINDOW
  {
    hide Wrap, Jump;
    if k == 0 {
    } else {
      PosResidue(s, k - 1, n);
      StepResidue(Pos(s, k - 1, n), Jump(k), n);
    }
  }

  lemma PosRange(s: nat, k: nat, n: nat)
    requires s < n && n % WINDOW == 0
    ensures s % WINDOW <= Pos(s, k, n) <= n - WINDOW + s % WINDOW
  {
    PosResidue(s, k, n);
    var x := Pos(s, k, n);
    assert x / WINDOW < n / WINDOW;
  }

  lemma HalveCoefficient(c: int, h: int)
    requires c % 2 == 0
    ensures c * h == (c / 2) * (2 * h)
  {
    var d := c / 2;
    assert c == 2 * d;
    assert (2 * d) * h == d * (2 * h);
  }

  lemma Distribute(a: int, b: int, h: int)
    ensures (a + b) * h == a * h + b * h
  {
  }

  /** Fifteen is invertible modulo a power of two. */
  lemma {:induction false} FifteenInvertible(q: nat, w: int) returns (m: nat, c: int)
    ensures m < Pow2(q) && 15 * m == w + c * Pow2(q)
  {
    if q == 0 {
      m, c := 0, -w;
    } else {
      var h := Pow2(q - 1);
      var m0, c0 := FifteenInvertible(q - 1, w);
      if c0 % 2 == 0 {
        HalveCoefficient(c0, h);
        m, c := m0, c0 / 2;
      } else {
        HalveCoefficient(c0 + 15, h);
        Distribute(c0, 15, h);
        m, c := m0 + h, (c0 + 15) / 2;
      }
    }
  }

  /** The first eight triangular numbers meet every residue modulo eight. */
  lemma TriangularResidue(u: nat) returns (r: nat)
    ensures r < 8 && Triangle(r) % 8 == u % 8
  {
    assert Triangle(0) == 0 && Triangle(1) == 1 && Triangle(2) == 3 && Triangle(3) == 6;
    assert Triangle(4) == 10 && Triangle(5) == 15 && Triangle(6) == 21 && Triangle(7) == 28;
    var v := u % 8;
    r := [0, 1, 4, 2, 7, 6, 3, 5][v];
  }

  lemma JumpSumAt(m: nat, r: nat)
    requires r < 16
    ensures JumpSum(16 * m + r) == 1920 * m + 16 * Triangle(r)
  {
    var k := 16 * m + r;
    assert k / 16 == m && k % 16 == r;
  }

  /** How often, and after which round, the probe meets the start `t`. */
  lemma SolveProbe(s: nat, t: nat, q: nat) returns (k: nat, c: int)
    requires s % WINDOW == t % WINDOW && s < 128 * Pow2(q)
    ensures k < 16 * Pow2(q) && s + JumpSum(k) == (c + 1) * (128 * Pow2(q)) + t
  {
    var h := Pow2(q);
    var g := t - s + 128 * h;
    var u := g / 16;
    assert g == 16 * u;
    var r := TriangularResidue(u);
    var tri := Triangle(r);
    var w := (u - tri) / 8;
    assert u - tri == 8 * w;
    var m;
    m, c := FifteenInvertible(q, w);
    k := 16 * m + r;
    JumpSumAt(m, r);
    Distribute(c, 1, 128 * h);
    ScaleProduct(c, 128, h);
  }

  lemma ScaleProduct(c: int, a: int, h: int)
    ensures c * (a * h) == a * (c * h)
  {
  }

  lemma SplitCapacity(p: nat)
    requires p >= 7
    ensures Pow2(p) == 128 * Pow2(p - 7)
    ensures Pow2(p) % WINDOW == 0
  {
    Pow2Sum(7, p - 7);
    assert Pow2(7) == 128 by { assert Pow2(3) == 8; }
  }

  /** Within 2 * (n / 16) probes every start with the residue of `s` is visited. */
  lemma ProbeVisits(s: nat, t: nat, p: nat) returns (k: nat)
    requires p >= 12
    requires s < Pow2(p) && t < Pow2(p) && s % WINDOW == t % WINDOW
    ensures k < 2 * (Pow2(p) / WINDOW) && Pos(s, k, Pow2(p)) == t
  {
    var n := Pow2(p);
    SplitCapacity(p);
    var c;
    k, c := SolveProbe(s, t, p - 7);
    var sum := JumpSum(k);
    assert s + sum == (c + 1) * n + t;
    PosClosedForm(s, k, n);
    DivModUnique(s + sum, n, c + 1, t);
  }

  /** Within the same bound some window contains any given slot that is not below the residue. */
  lemma ProbeReaches(s: nat, i: nat, p: nat) returns (k: nat)
    requires p >= 12 && s < Pow2(p) && s % WINDOW <= i < Pow2(p)
    ensures k < 2 * (Pow2(p) / WINDOW) && Pos(s, k, Pow2(p)) <= i < Pos(s, k, Pow2(p)) + WINDOW
  {
    var d := (i - s % WINDOW) / WINDOW;
    var t := s % WINDOW + WINDOW * d;
    k := ProbeVisits(s, t, p);
  }

  /** The windows of a probe cover exactly the slots from its residue upwards. */
  lemma ProbeCovers(s: nat, i: nat, p: nat)
    requires p >= 12 && s < Pow2(p) && i < Pow2(p)
    ensures i >= s % WINDOW <==> exists k: nat :: Pos(s, k, Pow2(p)) <= i < Pos(s, k, Pow2(p)) + WINDOW
  {
    var n := Pow2(p);
    SplitCapacity(p);
    if i >= s % WINDOW {
      var k := ProbeReaches(s, i, p);
    }
    if k: nat :| Pos(s, k, n) <= i < Pos(s, k, n) + WINDOW {
      PosRange(s, k, n);
    }
  }
}
