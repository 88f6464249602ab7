/** The power-of-two growth policy of the tsl hash maps, and when the stored 32 bits of a hash find its bucket. */
module HopscotchPolicy {
  import opened Arithmetic
  import opened Entries
  import opened RoundingUp
  import opened Neighborhoods
  import opened HopscotchMap

  const MOST_BUCKETS: nat := 0x8000_0000_0000_0000

  function MaskedHome(h: Word64, n: nat): nat {
    if n == 0 then 0 else BitAnd(h, n - 1)
  }

  function NextPower(factor: nat, n: nat): Option<nat>
    requires factor > 0
  {
    var m := if n == 0 then 1 else n;
    if m > MOST_BUCKETS / factor then None else Some(m * factor)
  }

  /** `power_of_two_growth_policy`, with stored hashes when 32 bits are enough for so many buckets. */
  function PowerOfTwoPolicy(factor: nat): Policy
    requires factor >= 2
  {
    Policy(MaskedHome, n => NextPower(factor, n), n => RoundUpToPowerOf2(n), n => n - 1 < TWO_TO_32)
  }

  /** A mask below 2^k sees only the low k bits. */
  lemma {:induction false} LowBitsSuffice(a: nat, b: nat, k: nat)
    requires b < Pow2(k)
    ensures BitAnd(a % Pow2(k), b) == BitAnd(a, b)
  {
    if k > 0 {
      HalfModulo(a, Pow2(k - 1));
      LowBitsSuffice(a / 2, b / 2, k - 1);
      var c := a % Pow2(k);
      assert c / 2 == a / 2 % Pow2(k - 1) && c % 2 == a % 2;
    }
  }

  lemma TruncatedSuffices(h: Word64, m: nat)
    requires 0 < m <= TWO_TO_32
    ensures MaskedHome(Truncated(h), m) == MaskedHome(h, m)
  {
    hide Pow2, BitAnd;
    WordPowers();
    LowBitsSuffice(h, m - 1, 32);
  }

  /** The policy is one the table works with. */
  lemma PowerOfTwoIsGood(factor: nat)
    requires factor >= 2
    ensures GoodPolicy(PowerOfTwoPolicy(factor))
  {
    hide BitAnd, Pow2, RoundUpToPowerOf2;
    var p := PowerOfTwoPolicy(factor);
    forall h: Word64, n: nat | n > 0
      ensures p.home(h, n) < n
    {
      BitAndBelow(h, n - 1);
    }
    forall n: nat | p.next(n).Some?
      ensures p.next(n).value > n
    {
      var m := if n == 0 then 1 else n;
      MulMono(2, factor, m);
    }
    forall n: nat
      ensures p.round(n) >= n
    {
      if n > 0 { RoundUpIsLeast(n); }
    }
    RoundsNothing();
    forall n: nat, m: nat, h: Word64 | p.stored(n) && m <= n && m > 0
      ensures p.home(Truncated(h), m) == p.home(h, m)
    {
      TruncatedSuffices(h, m);
    }
  }

  lemma RoundsNothing()
    ensures RoundUpToPowerOf2(0) == 0
  {
  }

  /** The stored bits of every hash find its bucket if and only if there are at most 2^32 buckets. */
  lemma TruncationKeepsHomesIff(p: nat)
    requires p <= 63
    ensures (forall h: Word64 :: MaskedHome(Truncated(h), Pow2(p)) == MaskedHome(h, Pow2(p))) <==> Pow2(p) <= TWO_TO_32
  {
    hide BitAnd, Pow2;
    WordPowers();
    if p <= 32 {
      Pow2Monotone(p, 32);
      forall h: Word64
        ensures MaskedHome(Truncated(h), Pow2(p)) == MaskedHome(h, Pow2(p))
      {
        TruncatedSuffices(h, Pow2(p));
      }
    } else {
      Pow2Sum(32, p - 32);
      Doubles(p - 32);
      var h: Word64 := TWO_TO_32;
      assert Truncated(h) == 0;
      MaskIsModulo(0, p);
      MaskIsModulo(h, p);
      DivModUnique(h, Pow2(p), 0, h);
      DivModUnique(0, Pow2(p), 0, 0);
      assert MaskedHome(Truncated(h), Pow2(p)) != MaskedHome(h, Pow2(p));
    }
  }

  lemma Doubles(q: nat)
    requires q >= 1
    ensures TWO_TO_32 * Pow2(q) >= 2 * TWO_TO_32
  {
    hide Pow2;
    Pow2Sum(1, q - 1);
    WordPowers();
    MulMono(2, Pow2(q), TWO_TO_32);
  }

  /** The next size is `factor` times as many buckets, or as one, unless that exceeds 2^63. */
  lemma NextPowerIs(factor: nat, n: nat)
    requires factor > 0
    ensures var m := if n == 0 then 1 else n;
            && (NextPower(factor, n).None? <==> m * factor > MOST_BUCKETS)
            && (NextPower(factor, n).Some? ==> NextPower(factor, n).value == m * factor)
  {
    var m := if n == 0 then 1 else n;
    var q := MOST_BUCKETS / factor;
    assert MOST_BUCKETS == factor * q + MOST_BUCKETS % factor;
    if m > q {
      MulMono(q + 1, m, factor);
    } else {
      MulMono(m, q, factor);
    }
  }

  lemma NextFits(factor: nat, x: nat, total: nat)
    requires factor >= 2 && LoadOf(x, MIN_LOAD_FACTOR_FOR_REHASH) <= total && 10 * (total + 1) * factor <= MOST_BUCKETS
    ensures NextPower(factor, x).Some? && NextPower(factor, x).value <= 10 * (total + 1) * factor
  {
    hide NextPower;
    LoadedSize(x, total);
    NextPowerIs(factor, x);
    MulMono(if x == 0 then 1 else x, 10 * (total + 1), factor);
  }

  lemma RoundFits(m: nat, most: nat)
    requires 2 * m <= most
    ensures RoundUpToPowerOf2(m) <= most
  {
    hide RoundUpToPowerOf2;
    if m > 0 {
      RoundUpIsLeast(m);
    } else {
      RoundsNothing();
    }
  }

  /** Where there may be twenty times as many buckets as elements, times the growth factor, growing is never refused. */
  lemma AmpleBuckets(factor: nat, most: nat, f: real, from: nat, total: nat)
    requires factor >= 2 && 0.1 <= f && 20 * (total + 1) * factor <= most <= MOST_BUCKETS
    ensures !GrowthRefused(PowerOfTwoPolicy(factor), most, f, from, total)
  {
    hide RoundUpToPowerOf2, NextPower, Pow2, Enough, LoadOf;
    var b := 10 * (total + 1) * factor;
    assert 2 * b == 20 * (total + 1) * factor;
    EnoughBound(total, f);
    MulMono(2, factor, 10 * (total + 1));
    if x: nat :| from <= x <= most && LoadOf(x, MIN_LOAD_FACTOR_FOR_REHASH) <= total
                 && (NextPower(factor, x).None?
                     || exists m: nat :: Asks(PowerOfTwoPolicy(factor), f, total, x, m) && RoundUpToPowerOf2(m) > most) {
      NextFits(factor, x, total);
      var m: nat :| Asks(PowerOfTwoPolicy(factor), f, total, x, m) && RoundUpToPowerOf2(m) > most;
      AskedFits(factor, f, total, x, m, b);
      RoundFits(m, most);
      assert false;
    }
  }

  lemma AskedFits(factor: nat, f: real, total: nat, x: nat, m: nat, b: nat)
    requires factor >= 2 && Asks(PowerOfTwoPolicy(factor), f, total, x, m) && Enough(total, f) <= b
    requires NextPower(factor, x).Some? && NextPower(factor, x).value <= b
    ensures m <= b
  {
    hide NextPower, Enough;
  }

  lemma LoadedSize(x: nat, total: nat)
    requires LoadOf(x, MIN_LOAD_FACTOR_FOR_REHASH) <= total
    ensures x <= 10 * (total + 1)
  {
    assert x as real * 0.1 < total as real + 1.0;
  }

  lemma EnoughBound(total: nat, f: real)
    requires 0.1 <= f
    ensures Enough(total, f) <= 10 * total + 1
  {
    var q := total as real / f;
    assert q * f == total as real;
    assert (q - 10.0 * total as real) * f <= 0.0 by {
      assert 10.0 * total as real * (f - 0.1) >= 0.0;
    }
    assert q <= 10.0 * total as real;
  }
}
