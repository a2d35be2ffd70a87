/** The prime finder of ut0rnd.cc. */
module Primes {
  import opened Words

  ghost predicate Prime(p: nat) {
    p >= 2 && forall d :: 2 <= d < p ==> p % d != 0
  }

  /** Arithmetic on doubles: multiplication and truncation, and the two comparisons. Its rounding is left open;
      a factor of at least one does not make a number smaller. */
  datatype Doubles = Doubles(times: (nat, real) -> nat, less: (nat, real, nat) -> bool, greater: (nat, real, nat) -> bool)
  {
    ghost predicate Sane() {
      forall n: nat, f: real :: f >= 1.0 ==> times(n, f) >= n
    }
  }

  const RANDOM_1 := 1.0412321
  const RANDOM_2 := 1.1131347
  const RANDOM_3 := 1.0132677

  // ----- there is always a next prime

  function Factorial(n: nat): (f: nat)
    ensures f >= 1
  {
    if n == 0 then 1 else n * Factorial(n - 1)
  }

  lemma MultipleMod(q: nat, d: nat)
    requires d >= 1
    ensures d * q % d == 0 && q * d % d == 0
  {
    ModUnique(d, d * q, q, 0);
    assert q * d == d * q;
  }

  lemma {:induction false} FactorialDivides(n: nat, d: nat)
    requires 1 <= d <= n
    ensures Factorial(n) % d == 0
  {
    if d == n {
      MultipleMod(Factorial(n - 1), n);
    } else {
      FactorialDivides(n - 1, d);
      var q := Factorial(n - 1) / d;
      assert Factorial(n - 1) == d * q;
      assert n * (d * q) == (n * q) * d;
      MultipleMod(n * q, d);
    }
  }

  lemma {:induction false} PrimeDivisor(m: nat, d: nat) returns (p: nat)
    requires 2 <= d <= m && m % d == 0 && forall e :: 2 <= e < d ==> m % e != 0
    ensures Prime(p) && p <= m && m % p == 0
  {
    p := d;
    forall e | 2 <= e < d ensures d % e != 0 {
      if d % e == 0 {
        var a, b := d / e, m / d;
        assert m == d * b && d == e * a;
        assert m == e * (a * b);
        MultipleMod(a * b, e);
      }
    }
  }

  /** Every number from two on has a prime divisor: its least divisor. */
  lemma {:induction false} LeastDivisor(m: nat, from: nat) returns (p: nat)
    requires 2 <= from <= m && forall e :: 2 <= e < from ==> m % e != 0
    ensures Prime(p) && p <= m && m % p == 0
    decreases m - from
  {
    if m % from == 0 {
      p := PrimeDivisor(m, from);
    } else {
      assert from < m;
      p := LeastDivisor(m, from + 1);
    }
  }

  lemma SuccessorNotDivided(f: nat, p: nat)
    requires p >= 2 && f % p == 0
    ensures (f + 1) % p != 0
  {
    ModUnique(p, f + 1, f / p, 1);
  }

  /** Euclid: above every number there is a prime. */
  lemma NextPrimeExists(n: nat) returns (p: nat)
    ensures Prime(p) && p > n
  {
    var m := Factorial(n) + 1;
    p := LeastDivisor(m, 2);
    if p <= n {
      FactorialDivides(n, p);
      SuccessorNotDivided(Factorial(n), p);
    }
  }

  // ----- trial division

  ghost predicate NoDivisorBelow(n: nat, i: nat) {
    forall d :: 2 <= d < i ==> n % d != 0
  }

  lemma SquareBelow(d: nat, q: nat, i: nat)
    ensures d >= i && q >= i ==> d * q >= i * i
    ensures d >= 1 && q < 1 ==> d * q == 0
  {
    if d >= i && q >= i {
      assert d * q - i * i == (d - i) * q + i * (q - i);
    }
  }

  /** The cofactor of a divisor above the square root is a divisor below it. */
  lemma Cofactor(n: nat, d: nat, i: nat)
    requires 2 <= d < n && n % d == 0 && d >= i && i * i > n
    ensures 2 <= n / d < i && n % (n / d) == 0
  {
    var q := n / d;
    assert n == d * q;
    SquareBelow(d, q, i);
    assert q != 1;
    MultipleMod(d, q);
  }

  /** No divisor up to the square root: no divisor at all. */
  lemma TrialDivisionIsEnough(n: nat, i: nat)
    requires n >= 2 && i * i > n && NoDivisorBelow(n, i)
    ensures Prime(n)
  {
    forall d | 2 <= d < n ensures n % d != 0 {
      if n % d == 0 && d >= i {
        Cofactor(n, d, i);
      }
    }
  }

  /** The inner loop: true iff no divisor was met. */
  method IsPrime(n: nat) returns (prime: bool)
    requires n >= 2
    ensures prime <==> Prime(n)
  {
    var i := 2;
    while i * i <= n
      invariant i >= 2 && NoDivisorBelow(n, i)
      decreases n - i
    {
      assert i < n by {
        assert i * i >= 2 * i;
      }
      if n % i == 0 {
        return false;
      }
      i := i + 1;
    }
    TrialDivisionIsEnough(n, i);
    prime := true;
  }

  // ----- the start of the search

  /** The number the search starts from. */
  function Start(n: nat, pow2: nat, fp: Doubles): nat {
    var n0 := n + 100;
    var n1 := if fp.less(n0, 1.05, pow2) then fp.times(n0, RANDOM_1) else n0;
    var n2 := if fp.greater(n1, 0.95, pow2 * 2) then fp.times(n1, RANDOM_2) else n1;
    var n3 := if n2 > pow2 * 2 - 20 then n2 + 30 else n2;
    fp.times(n3, RANDOM_3)
  }

  /** The first power of two, from pow2 on, whose double reaches n. */
  function PowerFrom(pow2: nat, n: nat): (p: nat)
    requires pow2 >= 1
    ensures p >= pow2 && p * 2 >= n
    decreases n - pow2
  {
    if pow2 * 2 < n then PowerFrom(pow2 * 2, n) else pow2
  }

  // ----- the start is not near a power of two

  /** Exact arithmetic, truncated where the source converts to an integer. */
  const EXACT := Doubles((n: nat, f: real) => if f >= 0.0 then (n as real * f).Floor else 0,
                         (n: nat, f: real, p: nat) => n as real < f * p as real,
                         (n: nat, f: real, p: nat) => n as real > f * p as real)

  lemma NotSmaller(x: real, f: real)
    requires x >= 0.0 && f >= 1.0
    ensures x * f >= x
  {
    assert x * f - x == x * (f - 1.0);
  }

  lemma ExactIsSane()
    ensures EXACT.Sane()
  {
    forall n: nat, f: real | f >= 1.0 ensures EXACT.times(n, f) >= n {
      NotSmaller(n as real, f);
    }
  }

  /** A start just above a power of two, one in the middle, one just below the next, and a small one just below. */
  lemma StartValues()
    ensures Start(950, 1024, EXACT) == 1107 && Start(1000, 1024, EXACT) == 1114
    ensures Start(1900, 1024, EXACT) == 2285 && Start(140, 128, EXACT) == 273
    ensures PowerFrom(1, 1050) == 1024 && PowerFrom(1, 1100) == 1024 && PowerFrom(1, 2000) == 1024 && PowerFrom(1, 240) == 128
  {
  }

  ghost predicate PowerOfTwo(q: nat) {
    exists k: nat :: q == Pow2(k)
  }

  /** At least one part in 32 away from q. */
  predicate Far(n: nat, q: nat) {
    32 * n <= 31 * q || 32 * n >= 33 * q
  }

  lemma {:induction false} PowerFromPower(k: nat, n: nat)
    requires Pow2(k) < n
    ensures PowerOfTwo(PowerFrom(Pow2(k), n)) && PowerFrom(Pow2(k), n) < n
    decreases n - Pow2(k)
  {
    if Pow2(k) * 2 < n {
      assert Pow2(k + 1) == Pow2(k) * 2;
      PowerFromPower(k + 1, n);
    }
  }

  /** A power of two is at most p, or 2p, or at least 4p. */
  lemma {:induction false} PowersApart(j: nat, k: nat)
    ensures Pow2(j) <= Pow2(k) || Pow2(j) == 2 * Pow2(k) || Pow2(j) >= 4 * Pow2(k)
    decreases j + k
  {
    if j > 0 && k > 0 {
      PowersApart(j - 1, k - 1);
    } else if j > 1 {
      assert Pow2(j) == 4 * Pow2(j - 2);
    }
  }

  /** Between p and 2p, or above 2p: away from both, and from 4p. */
  lemma StartBetween(n: nat, p: nat)
    requires p < n + 100 <= 2 * p && (p == 64 || p == 128 || p >= 256)
    ensures var s := Start(n, p, EXACT);
      32 * s >= 33 * p && Far(s, 2 * p) && 8 * s <= 31 * p
  {
    var n0 := n + 100;
    if n0 as real < 1.05 * p as real {
      var n1 := (n0 as real * RANDOM_1).Floor;
      assert Start(n, p, EXACT) == (n1 as real * RANDOM_3).Floor;
    } else if n0 as real > 0.95 * (p * 2) as real {
      var n1 := (n0 as real * RANDOM_2).Floor;
      assert Start(n, p, EXACT) == ((n1 + 30) as real * RANDOM_3).Floor;
    } else if n0 > p * 2 - 20 {
      assert Start(n, p, EXACT) == ((n0 + 30) as real * RANDOM_3).Floor;
    } else {
      assert Start(n, p, EXACT) == (n0 as real * RANDOM_3).Floor;
    }
  }

  /** The search starts at a number that is not near any power of two. */
  lemma StartIsFar(n: nat, q: nat)
    requires PowerOfTwo(q)
    ensures Far(Start(n, PowerFrom(1, n + 100), EXACT), q)
  {
    var p := PowerFrom(1, n + 100);
    PowerFromPower(0, n + 100);
    var j :| q == Pow2(j);
    var k :| p == Pow2(k);
    PowersApart(j, k);
    PowersApart(7, k);
    PowersApart(k, 6);
    assert Pow2(6) == 64 && Pow2(7) == 128;
    StartBetween(n, p);
  }

  /** Nor is the prime that is found, unless there is a gap without primes from the start to the neighbourhood of the
      power of two above it. */
  lemma PrimeIsFar(n: nat, q: nat, p: nat)
    requires PowerOfTwo(q) && p >= Start(n, PowerFrom(1, n + 100), EXACT)
    requires forall m :: Start(n, PowerFrom(1, n + 100), EXACT) <= m < p ==> !Prime(m)
    ensures Far(p, q) || forall m :: Start(n, PowerFrom(1, n + 100), EXACT) <= m && 32 * m <= 31 * q ==> !Prime(m)
  {
    hide Start, PowerFrom, PowerOfTwo;
    StartIsFar(n, q);
  }

  /** ut_find_prime: the least prime from the scaled number on. It is at least the argument plus 100. */
  method FindPrime(n: nat, fp: Doubles) returns (p: nat)
    requires fp.Sane()
    ensures Prime(p) && p >= n + 100
    ensures p >= Start(n, PowerFrom(1, n + 100), fp)
    ensures forall m :: Start(n, PowerFrom(1, n + 100), fp) <= m < p ==> !Prime(m)
  {
    var n1 := n + 100;
    var pow2 := 1;
    while pow2 * 2 < n1
      invariant pow2 >= 1 && PowerFrom(1, n1) == PowerFrom(pow2, n1)
      decreases n1 - pow2
    {
      pow2 := pow2 * 2;
    }
    if fp.less(n1, 1.05, pow2) {
      n1 := fp.times(n1, RANDOM_1);
    }
    pow2 := pow2 * 2;
    if fp.greater(n1, 0.95, pow2) {
      n1 := fp.times(n1, RANDOM_2);
    }
    if n1 > pow2 - 20 {
      n1 := n1 + 30;
    }
    n1 := fp.times(n1, RANDOM_3);
    ghost var start := n1;
    ghost var bound := NextPrimeExists(n1);
    while true
      invariant start <= n1 <= bound
      invariant forall m :: start <= m < n1 ==> !Prime(m)
      decreases bound - n1
    {
      var prime := IsPrime(n1);
      if prime {
        return n1;
      }
      n1 := n1 + 1;
    }
  }
}
