/**
 The numbers behind the constants of SHA-256 are the first 64 primes.
 */
module Sha256Primes {
  import opened Sha256

  function Times(q: nat, d: nat): nat {
    q * d
  }

  ghost predicate Divides(d: nat, n: nat) {
    exists q :: Times(q, d) == n
  }

  ghost predicate IsPrime(n: nat) {
    n >= 2 && forall d :: 2 <= d < n ==> !Divides(d, n)
  }

  /** Trial division by the primes up to 17. */
  predicate PassesTrial(n: nat) {
    && (n % 2 != 0 || n == 2) && (n % 3 != 0 || n == 3) && (n % 5 != 0 || n == 5) && (n % 7 != 0 || n == 7)
    && (n % 11 != 0 || n == 11) && (n % 13 != 0 || n == 13) && (n % 17 != 0 || n == 17)
  }

  lemma TrialFindsSmall(n: nat, d: nat)
    requires PassesTrial(n) && 2 <= d <= 18 && d < n
    ensures !Divides(d, n)
  {
    if q :| Times(q, d) == n {
      if d % 2 == 0 {
        EvenMultiples(n, d, q);
      } else {
        assert d == 3 || d == 5 || d == 7 || d == 9 || d == 11 || d == 13 || d == 15 || d == 17;
        MultiplesOfThree(n, q);
        MultiplesOfFive(n, q);
        MultiplesOfSeven(n, q);
        MultiplesOfEleven(n, q);
        MultiplesOfThirteen(n, q);
        MultiplesOfSeventeen(n, q);
      }
    }
  }

  lemma EvenMultiples(n: nat, d: nat, q: nat)
    requires d % 2 == 0 && n == q * d
    ensures n % 2 == 0
  {
    var k := d / 2;
    assert n == q * k * 2;
  }

  lemma MultiplesOfThree(n: nat, q: nat)
    ensures n == q * 3 || n == q * 9 || n == q * 15 ==> n % 3 == 0
  {
    var k := if n == q * 3 then q else if n == q * 9 then 3 * q else 5 * q;
    if n == 3 * k {
      assert n / 3 == k;
    }
  }

  lemma MultiplesOfFive(n: nat, q: nat)
    ensures n == q * 5 ==> n % 5 == 0
  {
  }

  lemma MultiplesOfSeven(n: nat, q: nat)
    ensures n == q * 7 ==> n % 7 == 0
  {
  }

  lemma MultiplesOfEleven(n: nat, q: nat)
    ensures n == q * 11 ==> n % 11 == 0
  {
  }

  lemma MultiplesOfThirteen(n: nat, q: nat)
    ensures n == q * 13 ==> n % 13 == 0
  {
  }

  lemma MultiplesOfSeventeen(n: nat, q: nat)
    ensures n == q * 17 ==> n % 17 == 0
  {
  }

  /** Below 19 * 19 trial division decides. */
  lemma TrialDecides(n: nat)
    requires 2 <= n < 361
    ensures IsPrime(n) <==> PassesTrial(n)
  {
    if PassesTrial(n) {
      forall d | 2 <= d < n ensures !Divides(d, n) {
        if d <= 18 {
          TrialFindsSmall(n, d);
        } else if q :| Times(q, d) == n {
          ProductAtLeast(q, d);
          assert Times(d, q) == n && Divides(q, n);
          TrialFindsSmall(n, q);
        }
      }
    } else {
      var d := FailedTrial(n);
    }
  }

  lemma FailedTrial(n: nat) returns (d: nat)
    requires n >= 2 && !PassesTrial(n)
    ensures 2 <= d < n && Divides(d, n)
  {
    d := if n % 2 == 0 && n != 2 then 2 else if n % 3 == 0 && n != 3 then 3 else if n % 5 == 0 && n != 5 then 5
         else if n % 7 == 0 && n != 7 then 7 else if n % 11 == 0 && n != 11 then 11
         else if n % 13 == 0 && n != 13 then 13 else 17;
    assert Times(n / d, d) == n;
  }

  lemma ProductAtLeast(q: nat, d: nat)
    requires d >= 19 && 19 <= q * d < 361
    ensures 1 <= q <= 18
    ensures q * d > d ==> q >= 2
  {
    if q >= 19 {
      AtLeast361(q, d);
    }
  }

  lemma AtLeast361(q: nat, d: nat)
    requires q >= 19 && d >= 19
    ensures q * d >= 361
  {
    assert q * d == (q - 19) * d + 19 * d;
  }

  // ---------------------------------------------------------------------------------------------
  // The list

  lemma Listed0(t: nat)
    requires 0 <= t < 16
    ensures PassesTrial(Prime(t))
  {
    match t
    case 0 => case 1 => case 2 => case 3 => case 4 => case 5 => case 6 => case 7 =>
    case 8 => case 9 => case 10 => case 11 => case 12 => case 13 => case 14 => case _ =>
  }

  lemma Listed1(t: nat)
    requires 16 <= t < 32
    ensures PassesTrial(Prime(t))
  {
    match t
    case 16 => case 17 => case 18 => case 19 => case 20 => case 21 => case 22 => case 23 =>
    case 24 => case 25 => case 26 => case 27 => case 28 => case 29 => case 30 => case _ =>
  }

  lemma Listed2(t: nat)
    requires 32 <= t < 48
    ensures PassesTrial(Prime(t))
  {
    match t
    case 32 => case 33 => case 34 => case 35 => case 36 => case 37 => case 38 => case 39 =>
    case 40 => case 41 => case 42 => case 43 => case 44 => case 45 => case 46 => case _ =>
  }

  lemma Listed3(t: nat)
    requires 48 <= t < 64
    ensures PassesTrial(Prime(t))
  {
    match t
    case 48 => case 49 => case 50 => case 51 => case 52 => case 53 => case 54 => case 55 =>
    case 56 => case 57 => case 58 => case 59 => case 60 => case 61 => case 62 => case _ =>
  }

  lemma Between0(t: nat, k: nat)
    requires 0 <= t < 16 && k < 6 && Prime(t) + 2 * k + 2 < Prime(t + 1)
    ensures !PassesTrial(Prime(t) + 2 * k + 2)
  {
    assert k == 0 || k == 1 || k == 2 || k == 3 || k == 4 || k == 5;
    match t
    case 0 => case 1 => case 2 => case 3 => case 4 => case 5 => case 6 => case 7 =>
    case 8 => case 9 => case 10 => case 11 => case 12 => case 13 => case 14 => case _ =>
  }

  lemma Between1(t: nat, k: nat)
    requires 16 <= t < 32 && k < 6 && Prime(t) + 2 * k + 2 < Prime(t + 1)
    ensures !PassesTrial(Prime(t) + 2 * k + 2)
  {
    assert k == 0 || k == 1 || k == 2 || k == 3 || k == 4 || k == 5;
    match t
    case 16 => case 17 => case 18 => case 19 => case 20 => case 21 => case 22 => case 23 =>
    case 24 => case 25 => case 26 => case 27 => case 28 => case 29 => case 30 => case _ =>
  }

  lemma Between2(t: nat, k: nat)
    requires 32 <= t < 48 && k < 6 && Prime(t) + 2 * k + 2 < Prime(t + 1)
    ensures !PassesTrial(Prime(t) + 2 * k + 2)
  {
    assert k == 0 || k == 1 || k == 2 || k == 3 || k == 4 || k == 5;
    match t
    case 32 => case 33 => case 34 => case 35 => case 36 => case 37 => case 38 => case 39 =>
    case 40 => case 41 => case 42 => case 43 => case 44 => case 45 => case 46 => case _ =>
  }

  lemma Between3(t: nat, k: nat)
    requires 48 <= t < 63 && k < 6 && Prime(t) + 2 * k + 2 < Prime(t + 1)
    ensures !PassesTrial(Prime(t) + 2 * k + 2)
  {
    assert k == 0 || k == 1 || k == 2 || k == 3 || k == 4 || k == 5;
    match t
    case 48 => case 49 => case 50 => case 51 => case 52 => case 53 => case 54 => case 55 =>
    case 56 => case 57 => case 58 => case 59 => case 60 => case 61 => case _ =>
  }

  lemma InOrder(t: nat)
    requires t < 64
    ensures t + 2 <= Prime(t) <= 311 && Prime(0) == 2 && Prime(63) == 311
    ensures t < 63 ==> Prime(t) < Prime(t + 1) <= Prime(t) + 14
  {
  }

  lemma ListedPass(t: nat)
    requires t < 64
    ensures PassesTrial(Prime(t))
  {
    hide PassesTrial;
    hide Prime;
    if t < 32 {
      if t < 16 { Listed0(t); } else { Listed1(t); }
    } else {
      if t < 48 { Listed2(t); } else { Listed3(t); }
    }
  }

  /** Past an odd number of the list, the odd ones before the next fail. */
  lemma OddBetween(t: nat, k: nat)
    requires t < 63 && k < 6 && Prime(t) + 2 * k + 2 < Prime(t + 1)
    ensures !PassesTrial(Prime(t) + 2 * k + 2)
  {
    hide PassesTrial;
    hide Prime;
    if t < 32 {
      if t < 16 { Between0(t, k); } else { Between1(t, k); }
    } else {
      if t < 48 { Between2(t, k); } else { Between3(t, k); }
    }
  }

  lemma Between(t: nat, n: nat)
    requires t < 63 && Prime(t) < n < Prime(t + 1)
    ensures !PassesTrial(n)
  {
    hide Prime;
    hide PassesTrial;
    InOrder(t);
    ListedPass(t);
    EvenFails(n);
    EvenFails(Prime(t));
    if n % 2 != 0 && Prime(t) != 2 {
      OddBetween(t, HalfGap(Prime(t), n));
    } else if n % 2 != 0 {
      AfterTwo(t);
    }
  }

  lemma AfterTwo(t: nat)
    requires t < 63 && Prime(t) == 2
    ensures Prime(t + 1) == 3
  {
    InOrder(t);
  }

  function HalfGap(p: nat, n: nat): (k: nat)
    requires p < n < p + 14 && p % 2 == n % 2
    ensures k < 6 && n == p + 2 * k + 2
  {
    (n - p) / 2 - 1
  }

  lemma EvenFails(n: nat)
    ensures n % 2 == 0 && n > 2 ==> !PassesTrial(n)
  {
  }

  /** The list consists of primes, in order, and leaves none out. */
  lemma ListedPrimes(t: nat)
    requires t < 64
    ensures IsPrime(Prime(t)) && (t < 63 ==> Prime(t) < Prime(t + 1))
    ensures t == 0 ==> Prime(t) == 2
    ensures t < 63 ==> forall n :: Prime(t) < n < Prime(t + 1) ==> !IsPrime(n)
  {
    InOrder(t);
    ListedPass(t);
    hide PassesTrial;
    hide Prime;
    TrialDecides(Prime(t));
    if t < 63 {
      InOrder(t + 1);
      forall n: nat | Prime(t) < n < Prime(t + 1) ensures !IsPrime(n) {
        Between(t, n);
        TrialDecides(n);
      }
    }
  }
}
