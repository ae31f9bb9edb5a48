/**
 The linear congruential generator of include/rand.h.

 `mCurrent` is a 32-bit signed integer: the product and the sum are formed in a wider type and
 truncated on assignment, which is `ToInt32` below.
 */
module Rand {
  import opened Counting
  import opened Word

  const MULTIPLIER := 214013
  const INCREMENT := 2531011

  /** Truncation of an arbitrary integer to a 32-bit signed one (two's complement). */
  function ToInt32(x: int): int32 {
    var m := x % TWO_TO_THE_32;
    (if m < TWO_TO_THE_31 then m else m - TWO_TO_THE_32) as int32
  }

  /** The state after one call, and the value that call returns (its low 31 bits). */
  function Next(s: int32): int32 {
    ToInt32(s as int * MULTIPLIER + INCREMENT)
  }

  function Output(s: int32): int {
    s as int % TWO_TO_THE_31
  }

  /** The state after `n` calls. */
  function State(seed: int32, n: nat): int32 {
    if n == 0 then seed else Next(State(seed, n - 1))
  }

  class Generator {
    var mCurrent: int32

    constructor (seed: int32)
      ensures mCurrent == seed
    {
      mCurrent := seed;
    }

    method Set(seed: int32)
      modifies this
      ensures mCurrent == seed
    {
      mCurrent := seed;
    }

    method Get() returns (r: int)
      modifies this
      ensures mCurrent == Next(old(mCurrent))
      ensures r == Output(mCurrent)
      ensures 0 <= r < TWO_TO_THE_31
    {
      mCurrent := ToInt32(mCurrent as int * MULTIPLIER + INCREMENT);
      r := mCurrent as int % TWO_TO_THE_31;
    }
  }

  // ---------------------------------------------------------------------------------------------
  // Divisibility by powers of two, without any nonlinear arithmetic

  /** Whether 2^k divides x. */
  ghost predicate PowerDivides(k: nat, x: int) {
    k == 0 || (x % 2 == 0 && PowerDivides(k - 1, x / 2))
  }

  ghost function Pow2(k: nat): (p: nat)
    ensures p > 0
  {
    if k == 0 then 1 else 2 * Pow2(k - 1)
  }

  lemma {:induction false} PowerDividesQuotient(k: nat, x: int) returns (q: int)
    requires PowerDivides(k, x)
    ensures x == q * Pow2(k)
  {
    if k == 0 {
      q := x;
    } else {
      q := PowerDividesQuotient(k - 1, x / 2);
      DoubleProduct(q, Pow2(k - 1));
    }
  }

  lemma {:induction false} PowerDividesProduct(k: nat, q: int)
    ensures PowerDivides(k, q * Pow2(k))
  {
    if k > 0 {
      DoubleProduct(q, Pow2(k - 1));
      PowerDividesProduct(k - 1, q);
    }
  }

  lemma DoubleProduct(q: int, p: int)
    ensures q * (2 * p) == 2 * (q * p)
  {
  }

  lemma MultipleIsZeroRemainder(m: int, x: int)
    requires m > 0
    ensures x % m == 0 <==> exists q :: x == q * m
  {
    if x % m == 0 {
      assert x == (x / m) * m;
    }
    if exists q :: x == q * m {
      var q :| x == q * m;
      SmallMultiple(m, q - x / m, x % m);
    }
  }

  lemma SmallMultiple(m: int, k: int, r: int)
    requires 0 <= r < m && r == k * m
    ensures r == 0
  {
    if k >= 1 {
      AtLeastOneMultiple(m, k);
    }
  }

  lemma AtLeastOneMultiple(m: int, k: int)
    requires m > 0 && k >= 1
    ensures k * m >= m
  {
    assert k * m == m + (k - 1) * m;
  }

  lemma Pow2Values()
    ensures Pow2(31) == TWO_TO_THE_31 && Pow2(32) == TWO_TO_THE_32
  {
    assert Pow2(8) == 256;
    assert Pow2(16) == 65536;
    assert Pow2(24) == 0x100_0000;
    assert Pow2(31) == TWO_TO_THE_31;
  }

  lemma {:induction false} OddFactorIrrelevant(k: nat, s: int, o: int)
    requires o % 2 == 1
    ensures PowerDivides(k, s * o) <==> PowerDivides(k, s)
  {
    if k > 0 {
      OddTimes(s, o / 2, o);
      if s % 2 == 0 {
        EvenTimes(s / 2, o);
        OddFactorIrrelevant(k - 1, s / 2, o);
      }
    }
  }

  lemma OddTimes(s: int, h: int, o: int)
    requires o == 2 * h + 1
    ensures (s * o) % 2 == s % 2
  {
    assert s * o == 2 * (s * h) + s;
  }

  lemma EvenTimes(t: int, o: int)
    ensures (2 * t) * o / 2 == t * o
  {
    assert (2 * t) * o == 2 * (t * o);
  }

  // ---------------------------------------------------------------------------------------------
  // The unreduced orbit

  /** MULTIPLIER^n and 1 + MULTIPLIER + ... + MULTIPLIER^(n-1). */
  ghost function Power(n: nat): int {
    if n == 0 then 1 else MULTIPLIER * Power(n - 1)
  }

  ghost function Geometric(n: nat): int {
    if n == 0 then 0 else MULTIPLIER * Geometric(n - 1) + 1
  }

  ghost function Orbit(x: int, n: nat): int {
    if n == 0 then x else MULTIPLIER * Orbit(x, n - 1) + INCREMENT
  }

  lemma {:induction false} OrbitDisplacement(x: int, n: nat)
    ensures Orbit(x, n) - x == Geometric(n) * ((MULTIPLIER - 1) * x + INCREMENT)
  {
    if n > 0 {
      OrbitDisplacement(x, n - 1);
      OneMore(Geometric(n - 1), (MULTIPLIER - 1) * x + INCREMENT);
    }
  }

  lemma OneMore(g: int, d: int)
    ensures (MULTIPLIER * g + 1) * d == MULTIPLIER * (g * d) + d
  {
  }

  /** How often 2^32 was discarded on the way to the n-th state. */
  lemma {:induction false} StateFollowsOrbit(seed: int32, n: nat) returns (q: int)
    ensures Orbit(seed as int, n) == State(seed, n) as int + TWO_TO_THE_32 * q
  {
    if n == 0 {
      q := 0;
    } else {
      var q' := StateFollowsOrbit(seed, n - 1);
      var x := State(seed, n - 1) as int * MULTIPLIER + INCREMENT;
      q := MULTIPLIER * q' + x / TWO_TO_THE_32 + (if x % TWO_TO_THE_32 < TWO_TO_THE_31 then 0 else 1);
    }
  }

  lemma {:induction false} GeometricSplit(m: nat, n: nat)
    ensures Geometric(m + n) == Power(n) * Geometric(m) + Geometric(n)
  {
    if n == 0 {
      assert Power(0) == 1;
    } else {
      GeometricSplit(m, n - 1);
      ScaledSum(Power(n - 1), Geometric(m), Geometric(n - 1));
    }
  }

  lemma ScaledSum(p: int, g: int, h: int)
    ensures MULTIPLIER * (p * g + h) + 1 == (MULTIPLIER * p) * g + (MULTIPLIER * h + 1)
  {
    assert (MULTIPLIER * p) * g == MULTIPLIER * (p * g);
  }

  lemma {:induction false} PowerModFour(n: nat) returns (q: int)
    ensures Power(n) == 4 * q + 1
  {
    if n == 0 {
      q := 0;
    } else {
      var q' := PowerModFour(n - 1);
      q := MULTIPLIER * q' + 53503;
    }
  }

  lemma {:induction false} GeometricParity(n: nat) returns (q: int)
    ensures Geometric(n) == 2 * q + n % 2
  {
    if n == 0 {
      q := 0;
    } else {
      var q' := GeometricParity(n - 1);
      q := MULTIPLIER * q' + (if n % 2 == 1 then 0 else 107007);
    }
  }

  /** Doubling the index doubles the sum, up to an odd factor, which powers of two do not see. */
  lemma GeometricDoubles(j: nat) returns (p: int)
    ensures Geometric(j + j) == 2 * p
    ensures forall k :: PowerDivides(k, p) <==> PowerDivides(k, Geometric(j))
  {
    hide *;
    GeometricSplit(j, j);
    var q := PowerModFour(j);
    var g := Geometric(j);
    p := g * (2 * q + 1);
    TwiceOdd(q, g);
    forall k: nat ensures PowerDivides(k, p) <==> PowerDivides(k, g) {
      OddSum(q);
      OddFactorIrrelevant(k, g, 2 * q + 1);
    }
  }

  lemma TwiceOdd(q: int, g: int)
    ensures (4 * q + 1) * g + g == 2 * (g * (2 * q + 1))
  {
  }

  /** The heart of the full-period theorem: the geometric sum and its index have the same 2-adic valuation. */
  lemma {:induction false} GeometricValuation(k: nat, n: nat)
    ensures PowerDivides(k, Geometric(n)) <==> PowerDivides(k, n)
    decreases k
  {
    hide *;
    if k == 0 {
      EverythingIsDivided(n);
      EverythingIsDivided(Geometric(n));
    } else {
      var q := GeometricParity(n);
      if n % 2 == 0 {
        var j := n / 2;
        assert n == j + j;
        var p := GeometricDoubles(j);
        GeometricValuation(k - 1, j);
        HalfOfDouble(k, Geometric(n), p);
        HalfOfDouble(k, n, j);
      } else {
        OddIsNotDivided(k, n);
        OddIsNotDivided(k, Geometric(n));
      }
    }
  }

  lemma EverythingIsDivided(x: int)
    ensures PowerDivides(0, x)
  {
  }

  lemma OddIsNotDivided(k: nat, x: int)
    requires k > 0 && x % 2 == 1
    ensures !PowerDivides(k, x)
  {
  }

  lemma HalfOfDouble(k: nat, x: int, y: int)
    requires k > 0 && x == 2 * y
    ensures PowerDivides(k, x) <==> PowerDivides(k - 1, y)
  {
  }

  lemma OrbitReturns(k: nat, x: int, n: nat)
    ensures PowerDivides(k, Orbit(x, n) - x) <==> PowerDivides(k, n)
  {
    var d := (MULTIPLIER - 1) * x + INCREMENT;
    OrbitDisplacement(x, n);
    StrideIsOdd(x);
    OddFactorIrrelevant(k, Geometric(n), d);
    GeometricValuation(k, n);
  }

  lemma StrideIsOdd(x: int)
    ensures ((MULTIPLIER - 1) * x + INCREMENT) % 2 == 1
  {
    var m := 107006 * x;
    assert (MULTIPLIER - 1) * x == 2 * m;
    OddSum(m + 1265505);
  }

  lemma OddSum(m: int)
    ensures (2 * m + 1) % 2 == 1
  {
  }

  lemma {:induction false} StateSplit(seed: int32, i: nat, j: nat)
    ensures State(seed, i + j) == State(State(seed, i), j)
  {
    if j > 0 {
      StateSplit(seed, i, j - 1);
    }
  }

  lemma PowerDividesMeaning(k: nat, x: int)
    ensures PowerDivides(k, x) <==> x % Pow2(k) == 0
  {
    MultipleIsZeroRemainder(Pow2(k), x);
    if PowerDivides(k, x) {
      var q := PowerDividesQuotient(k, x);
    }
    if x % Pow2(k) == 0 {
      PowerDividesProduct(k, x / Pow2(k));
      assert x == (x / Pow2(k)) * Pow2(k);
    }
  }

  lemma DividesByLiteral(x: int)
    ensures PowerDivides(31, x) <==> x % TWO_TO_THE_31 == 0
    ensures PowerDivides(32, x) <==> x % TWO_TO_THE_32 == 0
  {
    Pow2Values();
    PowerDividesMeaning(31, x);
    PowerDividesMeaning(32, x);
  }

  lemma ReturnAfter(seed: int32, n: nat)
    ensures State(seed, n) == seed <==> PowerDivides(32, n)
    ensures Output(State(seed, n)) == Output(seed) <==> PowerDivides(31, n)
  {
    var q := StateFollowsOrbit(seed, n);
    OrbitReturns(31, seed as int, n);
    OrbitReturns(32, seed as int, n);
    DividesByLiteral(Orbit(seed as int, n) - seed as int);
    ReturnArithmetic(State(seed, n), seed, q);
  }

  lemma ReturnArithmetic(s: int32, seed: int32, q: int)
    ensures s == seed <==> (s as int + TWO_TO_THE_32 * q - seed as int) % TWO_TO_THE_32 == 0
    ensures Output(s) == Output(seed) <==> (s as int + TWO_TO_THE_32 * q - seed as int) % TWO_TO_THE_31 == 0
  {
    var a, b := s as int, seed as int;
    AddMultiple(TWO_TO_THE_32, a - b, q);
    AddMultiple(TWO_TO_THE_31, a - b, 2 * q);
    SmallResidue(TWO_TO_THE_32, a - b);
    Congruence(TWO_TO_THE_31, b, a);
    assert a + TWO_TO_THE_32 * q - b == a - b + q * TWO_TO_THE_32;
    assert a + TWO_TO_THE_32 * q - b == a - b + (2 * q) * TWO_TO_THE_31;
  }

  lemma AddMultiple(m: int, x: int, q: int)
    requires m > 0
    ensures (x + q * m) % m == 0 <==> x % m == 0
  {
    MultipleIsZeroRemainder(m, x);
    MultipleIsZeroRemainder(m, x + q * m);
    if x % m == 0 {
      var k :| x == k * m;
      assert x + q * m == (k + q) * m;
    }
    if (x + q * m) % m == 0 {
      var k :| x + q * m == k * m;
      assert x == (k - q) * m;
    }
  }

  lemma SmallResidue(m: int, d: int)
    requires -m < d < m
    ensures d % m == 0 <==> d == 0
  {
    MultipleIsZeroRemainder(m, d);
    if d % m == 0 {
      var k :| d == k * m;
      if d >= 0 {
        SmallMultiple(m, k, d);
      } else {
        assert -d == (-k) * m;
        SmallMultiple(m, -k, -d);
      }
    }
  }

  lemma Congruence(m: int, i: int, j: int)
    requires m > 0
    ensures (j - i) % m == 0 <==> i % m == j % m
  {
    var di, dj, d := i / m, j / m, (j - i) / m;
    if i % m == j % m {
      assert j - i == (dj - di) * m;
    }
    MultipleIsZeroRemainder(m, j - i);
    if (j - i) % m == 0 {
      var q :| j - i == q * m;
      var t := q + di - dj;
      assert j % m - i % m == t * m;
      if j % m >= i % m {
        SmallMultiple(m, t, j % m - i % m);
      } else {
        assert i % m - j % m == (-t) * m;
        SmallMultiple(m, -t, i % m - j % m);
      }
    }
  }

  lemma ReturnBetween(seed: int32, i: nat, j: nat)
    requires i <= j
    ensures State(seed, i) == State(seed, j) <==> i % TWO_TO_THE_32 == j % TWO_TO_THE_32
    ensures Output(State(seed, i)) == Output(State(seed, j)) <==> i % TWO_TO_THE_31 == j % TWO_TO_THE_31
  {
    StateSplit(seed, i, j - i);
    ReturnAfter(State(seed, i), j - i);
    DividesByLiteral(j - i);
    Congruence(TWO_TO_THE_31, i, j);
    Congruence(TWO_TO_THE_32, i, j);
  }

  /**
   Full period: two positions of the state sequence agree exactly when they are a multiple of 2^32
   calls apart, so from any seed the state first returns to the seed after 2^32 calls.  The returned
   low 31 bits repeat exactly at distances divisible by 2^31.
   */
  lemma FullPeriod(seed: int32, i: nat, j: nat)
    ensures State(seed, i) == State(seed, j) <==> i % TWO_TO_THE_32 == j % TWO_TO_THE_32
    ensures Output(State(seed, i)) == Output(State(seed, j)) <==> i % TWO_TO_THE_31 == j % TWO_TO_THE_31
  {
    if i <= j {
      ReturnBetween(seed, i, j);
    } else {
      ReturnBetween(seed, j, i);
    }
  }

  // ---------------------------------------------------------------------------------------------
  // Consequence: every state is reached from every seed

  lemma NoEarlyRepeat(seed: int32, i: nat, j: nat)
    requires i < j < TWO_TO_THE_32
    ensures State(seed, i) != State(seed, j)
  {
    FullPeriod(seed, i, j);
  }

  /** Within 2^32 calls the generator passes through every 32-bit state. */
  lemma EveryStateReached(seed: int32, target: int32)
    ensures exists n: nat :: n < TWO_TO_THE_32 && State(seed, n) == target
  {
    var states := seq(TWO_TO_THE_32, (i: nat) => State(seed, i) as int);
    forall i, j | 0 <= i < j < TWO_TO_THE_32
      ensures states[i] != states[j]
    {
      NoEarlyRepeat(seed, i, j);
    }
    DistinctElements(states);
    var visited := set x | x in states;
    var all := Interval(-TWO_TO_THE_31, TWO_TO_THE_32);
    SubsetSize(visited, all);
    assert target as int in visited;
  }
}
