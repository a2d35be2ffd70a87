/** The random number generator of ut0rnd.cc. */
module RandomGenerator {
  import opened Words

  const RND1 := 151117737
  const RND2 := 119785373
  const RND3 := 85689495
  const SUM_RND2 := 98781234
  const SUM_RND3 := 126792457
  const SUM_RND4 := 63498502
  const XOR_RND1 := 187678878
  const XOR_RND2 := 143537923

  /** Multiplication and addition that wrap around. */
  function Affine(w: nat, a: nat, c: nat, x: nat): nat {
    Wrap(w, a * x + c)
  }

  /** (x << 20) + (x >> (w - 20)). */
  function Rotate(w: nat, x: nat): nat
    requires Width(w)
  {
    Wrap(w, Wrap(w, x * Pow2(20)) + x / Pow2(w - 20))
  }

  /** ut_rnd_gen_next_ulint. */
  function Next(w: nat, rnd: nat): nat
    requires Width(w)
  {
    var r1 := Affine(w, RND2, SUM_RND3, rnd);
    var r2 := Xor(XOR_RND1, r1);
    var r3 := Rotate(w, r2);
    var r4 := Affine(w, RND3, SUM_RND4, r3);
    var r5 := Xor(XOR_RND2, r4);
    var r6 := Rotate(w, r5);
    Affine(w, RND1, SUM_RND2, r6)
  }

  // ----- the mixing function loses nothing

  lemma AffineInjective(w: nat, a: nat, c: nat, x: nat, y: nat)
    requires a % 2 == 1 && x < Pow2(w) && y < Pow2(w) && Affine(w, a, c, x) == Affine(w, a, c, y)
    ensures x == y
  {
    var n := Pow2(w);
    CongruentIff(n, a * x + c, a * y + c);
    assert (a * x + c) - (a * y + c) == a * (x - y);
    OddFactor(w, a, x - y);
    CongruentIff(n, x, y);
    ModUnique(n, x, 0, x);
    ModUnique(n, y, 0, y);
  }

  /** Shifting out the high part: only the low part, of m values, remains. */
  lemma ShiftedOut(m: nat, t: nat, h: nat, l: nat)
    requires m > 0 && t > 0 && l < m
    ensures (m * h + l) * t % (m * t) == t * l && t * l + t <= m * t
  {
    assert m * t > 0 by { MulSign(m, t); }
    assert (m * h + l) * t == (m * t) * h + t * l;
    MulSub(t, m, l);
    MulSign(t, m - l);
    ModUnique(m * t, (m * h + l) * t, h, t * l);
  }

  lemma HighPart(m: nat, t: nat, h: nat, l: nat)
    requires m > 0 && m * h + l < m * t
    ensures h < t
  {
    MulSub(m, h, t);
    if h >= t {
      MulSign(m, h - t + 1);
    }
  }

  lemma DivMod(m: nat, x: nat) returns (r: nat, q: nat)
    requires m > 0
    ensures r == x % m && q == x / m && r < m && x == m * q + r
  {
    r, q := x % m, x / m;
  }

  lemma SmallMod(n: nat, x: nat)
    requires x < n
    ensures x % n == x
  {
  }

  lemma RotateValue(n: nat, m: nat, t: nat, x: nat)
    requires m > 0 && t > 0 && n == m * t && x < n
    ensures x / m < t && (x * t % n + x / m) % n == t * (x % m) + x / m
  {
    var l, h := DivMod(m, x);
    HighPart(m, t, h, l);
    ShiftedOut(m, t, h, l);
    SmallMod(n, t * l + h);
  }

  /** A rotation moves the high 20 bits below the others. */
  lemma RotateParts(w: nat, x: nat)
    requires Width(w) && x < Pow2(w)
    ensures x / Pow2(w - 20) < Pow2(20)
    ensures Rotate(w, x) == Pow2(20) * (x % Pow2(w - 20)) + x / Pow2(w - 20)
  {
    hide Pow2;
    Pow2Add(w - 20, 20);
    RotateValue(Pow2(w), Pow2(w - 20), Pow2(20), x);
  }

  lemma SamePartsSame(m: nat, t: nat, x: nat, y: nat)
    requires m > 0 && x / m < t && y / m < t && t * (x % m) + x / m == t * (y % m) + y / m
    ensures x == y
  {
    var a, b := DivMod(m, x);
    var c, d := DivMod(m, y);
    TwoParts(t, a, b, c, d);
  }

  lemma RotateInjective(w: nat, x: nat, y: nat)
    requires Width(w) && x < Pow2(w) && y < Pow2(w) && Rotate(w, x) == Rotate(w, y)
    ensures x == y
  {
    hide Pow2, Rotate;
    RotateParts(w, x);
    RotateParts(w, y);
    SamePartsSame(Pow2(w - 20), Pow2(20), x, y);
  }

  lemma {:induction false} XorCommutes(a: nat, b: nat)
    ensures Xor(a, b) == Xor(b, a)
    decreases a + b
  {
    if a != 0 || b != 0 {
      XorCommutes(a / 2, b / 2);
    }
  }

  lemma XorInjective(c: nat, x: nat, y: nat)
    requires Xor(c, x) == Xor(c, y)
    ensures x == y
  {
    XorCommutes(c, x);
    XorCommutes(c, y);
    XorInvolution(x, c);
    XorInvolution(y, c);
  }

  lemma AffineBound(w: nat, a: nat, c: nat, x: nat)
    ensures Affine(w, a, c, x) < Pow2(w)
  {
  }

  lemma RotateBound(w: nat, x: nat)
    requires Width(w)
    ensures Rotate(w, x) < Pow2(w)
  {
  }

  /** Different words are mixed into different words. */
  lemma NextInjective(w: nat, x: nat, y: nat)
    requires Width(w) && x < Pow2(w) && y < Pow2(w) && Next(w, x) == Next(w, y)
    ensures x == y
  {
    hide Xor, Rotate, Affine, Pow2;
    WidthBounds(w);
    var x1, y1 := Affine(w, RND2, SUM_RND3, x), Affine(w, RND2, SUM_RND3, y);
    AffineBound(w, RND2, SUM_RND3, x);
    AffineBound(w, RND2, SUM_RND3, y);
    XorBound(XOR_RND1, x1, w);
    XorBound(XOR_RND1, y1, w);
    var x3, y3 := Rotate(w, Xor(XOR_RND1, x1)), Rotate(w, Xor(XOR_RND1, y1));
    RotateBound(w, Xor(XOR_RND1, x1));
    RotateBound(w, Xor(XOR_RND1, y1));
    var x4, y4 := Affine(w, RND3, SUM_RND4, x3), Affine(w, RND3, SUM_RND4, y3);
    AffineBound(w, RND3, SUM_RND4, x3);
    AffineBound(w, RND3, SUM_RND4, y3);
    XorBound(XOR_RND2, x4, w);
    XorBound(XOR_RND2, y4, w);
    var x6, y6 := Rotate(w, Xor(XOR_RND2, x4)), Rotate(w, Xor(XOR_RND2, y4));
    RotateBound(w, Xor(XOR_RND2, x4));
    RotateBound(w, Xor(XOR_RND2, y4));
    AffineInjective(w, RND1, SUM_RND2, x6, y6);
    RotateInjective(w, Xor(XOR_RND2, x4), Xor(XOR_RND2, y4));
    XorInjective(XOR_RND2, x4, y4);
    AffineInjective(w, RND3, SUM_RND4, x3, y3);
    RotateInjective(w, Xor(XOR_RND1, x1), Xor(XOR_RND1, y1));
    XorInjective(XOR_RND1, x1, y1);
    AffineInjective(w, RND2, SUM_RND3, x, y);
  }

  // ----- the counter has full period

  /** The counter after k calls. */
  function Counter(w: nat, seed: nat, k: nat): nat {
    if k == 0 then seed else Affine(w, RND1, RND2, Counter(w, seed, k - 1))
  }

  function Power(a: nat, n: nat): nat {
    if n == 0 then 1 else a * Power(a, n - 1)
  }

  /** 1 + a + ... + a^(n - 1). */
  function Geometric(a: nat, n: nat): nat {
    if n == 0 then 0 else a * Geometric(a, n - 1) + 1
  }

  /** The counter without wrap-around. */
  function Unwrapped(a: nat, c: nat, seed: nat, k: nat): nat {
    if k == 0 then seed else a * Unwrapped(a, c, seed, k - 1) + c
  }

  lemma WrapInside(n: nat, a: nat, c: nat, u: nat)
    requires n > 0
    ensures (a * (u % n) + c) % n == (a * u + c) % n
  {
    var q, r := u / n, u % n;
    assert u == n * q + r;
    assert a * (n * q + r) == n * (a * q) + a * r;
    assert (a * u + c) - (a * r + c) == n * (a * q);
    CongruentIff(n, a * u + c, a * r + c);
  }

  lemma AffineInside(w: nat, a: nat, c: nat, u: nat)
    ensures Affine(w, a, c, u % Pow2(w)) == (a * u + c) % Pow2(w)
  {
    WrapInside(Pow2(w), a, c, u);
  }

  lemma {:induction false} CounterIsWrapped(w: nat, seed: nat, k: nat)
    requires seed < Pow2(w)
    ensures Counter(w, seed, k) == Unwrapped(RND1, RND2, seed, k) % Pow2(w)
  {
    hide Pow2, Affine;
    if k == 0 {
      ModUnique(Pow2(w), seed, 0, seed);
    } else {
      CounterIsWrapped(w, seed, k - 1);
      AffineInside(w, RND1, RND2, Unwrapped(RND1, RND2, seed, k - 1));
    }
  }

  lemma TravelStep(a: int, c: int, s: int, g: int, u: int)
    requires u - s == ((a - 1) * s + c) * g
    ensures a * u + c - s == ((a - 1) * s + c) * (a * g + 1)
  {
    var f := (a - 1) * s + c;
    assert a * u == a * s + a * (f * g);
    assert f * (a * g + 1) == a * (f * g) + f;
  }

  /** The distance travelled in n steps is the geometric sum times a factor that depends on the seed. */
  lemma {:induction false} Travelled(a: nat, c: nat, seed: nat, n: nat)
    requires a >= 1
    ensures Unwrapped(a, c, seed, n) - seed == ((a - 1) * seed + c) * Geometric(a, n)
  {
    if n > 0 {
      Travelled(a, c, seed, n - 1);
      TravelStep(a, c, seed, Geometric(a, n - 1), Unwrapped(a, c, seed, n - 1));
    }
  }

  lemma {:induction false} GeometricAdd(a: nat, m: nat, n: nat)
    ensures Geometric(a, m + n) == Power(a, m) * Geometric(a, n) + Geometric(a, m)
    ensures Power(a, m + n) == Power(a, m) * Power(a, n)
  {
    if m > 0 {
      GeometricAdd(a, m - 1, n);
      var p, g := Power(a, m - 1), Geometric(a, n);
      assert a * (p * g + Geometric(a, m - 1)) + 1 == (a * p) * g + (a * Geometric(a, m - 1) + 1);
      assert a * (p * Power(a, n)) == (a * p) * Power(a, n);
    } else {
      assert 1 * Geometric(a, n) == Geometric(a, n) && 1 * Power(a, n) == Power(a, n);
    }
  }

  lemma {:induction false} PowerModFour(a: nat, n: nat)
    requires a % 4 == 1
    ensures Power(a, n) % 4 == 1
  {
    if n > 0 {
      PowerModFour(a, n - 1);
      var p, q := a / 4, Power(a, n - 1) / 4;
      assert a * Power(a, n - 1) == (4 * p + 1) * (4 * q + 1) == 4 * (4 * p * q + p + q) + 1;
    }
  }

  lemma HalfSum(p: nat, g: nat, h: nat)
    requires p % 4 == 1 && h == p / 2 + 1
    ensures h % 2 == 1 && p * g + g == 2 * (h * g)
  {
    assert p + 1 == 2 * h;
    assert p * g + g == (p + 1) * g == 2 * h * g;
  }

  lemma {:induction false} GeometricParity(a: nat, n: nat)
    requires a % 2 == 1
    ensures Geometric(a, n) % 2 == n % 2
  {
    if n > 0 {
      GeometricParity(a, n - 1);
      var g := Geometric(a, n - 1);
      assert a * g == 2 * (a / 2 * g) + g;
    }
  }

  lemma OddNotDivisible(k: nat, x: int)
    requires k > 0 && x % 2 == 1
    ensures !Divides(Pow2(k), x)
  {
    forall q: int ensures x != Pow2(k) * q {
      assert Pow2(k) * q == 2 * (Pow2(k - 1) * q);
    }
  }

  /** For a multiplier of the form 4m + 1 the sum has exactly the factors of two that its length has. */
  lemma {:induction false} GeometricValuation(a: nat, n: nat, k: nat)
    requires a % 4 == 1
    ensures Divides(Pow2(k), Geometric(a, n)) <==> Divides(Pow2(k), n)
    decreases n, k
  {
    if k == 0 {
      assert Geometric(a, n) == Pow2(0) * Geometric(a, n) && n == Pow2(0) * n;
    } else if n == 0 {
      assert Divides(Pow2(k), 0) by { assert 0 == Pow2(k) * 0; }
    } else if n % 2 == 1 {
      GeometricParity(a, n);
      OddNotDivisible(k, n);
      OddNotDivisible(k, Geometric(a, n));
    } else {
      var m := n / 2;
      GeometricAdd(a, m, m);
      PowerModFour(a, m);
      var g, h := Geometric(a, m), Power(a, m) / 2 + 1;
      HalfSum(Power(a, m), g, h);
      DividesDouble(k - 1, h * g);
      OddFactor(k - 1, h, g);
      GeometricValuation(a, m, k - 1);
      DividesDouble(k - 1, m);
    }
  }

  lemma OddStart(seed: nat) returns (f: nat)
    ensures f == (RND1 - 1) * seed + RND2 && f % 2 == 1
  {
    f := (RND1 - 1) * seed + RND2;
  }

  lemma ReducedSame(n: nat, x: nat, u: nat)
    requires x < n
    ensures u % n == x <==> Divides(n, u - x)
  {
    ModUnique(n, x, 0, x);
    CongruentIff(n, u, x);
  }

  /** From any value, the counter comes back after n steps iff n is a multiple of the number of words. */
  lemma ReturnsIff(w: nat, seed: nat, n: nat)
    requires seed < Pow2(w)
    ensures Counter(w, seed, n) == seed <==> Divides(Pow2(w), n)
  {
    hide Pow2, Counter, Unwrapped, Geometric;
    var f := OddStart(seed);
    var u, g := Unwrapped(RND1, RND2, seed, n), Geometric(RND1, n);
    CounterIsWrapped(w, seed, n);
    Travelled(RND1, RND2, seed, n);
    ReducedSame(Pow2(w), seed, u);
    OddFactor(w, f, g);
    GeometricValuation(RND1, n, w);
  }

  lemma {:induction false} CounterAdd(w: nat, seed: nat, m: nat, n: nat)
    ensures Counter(w, seed, m + n) == Counter(w, Counter(w, seed, m), n)
  {
    if n > 0 {
      CounterAdd(w, seed, m, n - 1);
    }
  }

  lemma {:induction false} CounterBound(w: nat, seed: nat, k: nat)
    requires seed < Pow2(w)
    ensures Counter(w, seed, k) < Pow2(w)
  {
  }

  /** Two calls leave the same counter iff their distance is a multiple of the number of words. */
  lemma SameCounterIff(w: nat, seed: nat, j: nat, k: nat)
    requires seed < Pow2(w) && j <= k
    ensures Counter(w, seed, j) == Counter(w, seed, k) <==> (k - j) % Pow2(w) == 0
  {
    CounterAdd(w, seed, j, k - j);
    CounterBound(w, seed, j);
    ReturnsIff(w, Counter(w, seed, j), k - j);
    DividesMod(Pow2(w), k - j);
  }

  // ----- the results

  /** What the k-th call returns. */
  function Result(w: nat, seed: nat, k: nat): (r: nat)
    requires Width(w)
    ensures r < Pow2(w)
  {
    Next(w, Counter(w, seed, k))
  }

  /** Results repeat with period 2^w, and with no shorter one. */
  lemma PeriodIsExact(w: nat, seed: nat, j: nat, k: nat)
    requires Width(w) && seed < Pow2(w) && j <= k
    ensures Result(w, seed, j) == Result(w, seed, k) <==> (k - j) % Pow2(w) == 0
  {
    hide Next, Counter, Pow2, Width;
    CounterBound(w, seed, j);
    CounterBound(w, seed, k);
    SameCounterIff(w, seed, j, k);
    if Result(w, seed, j) == Result(w, seed, k) {
      NextInjective(w, Counter(w, seed, j), Counter(w, seed, k));
    }
  }

  /** The generator enumerates the word space: among any 2^w calls in a row every word is returned. */
  lemma EnumeratesAllWords(w: nat, seed: nat, first: nat, word: nat) returns (k: nat)
    requires Width(w) && seed < Pow2(w) && word < Pow2(w)
    ensures first <= k < first + Pow2(w) && Result(w, seed, k) == word
    ensures forall j :: first <= j < first + Pow2(w) && Result(w, seed, j) == word ==> j == k
  {
    hide Next, Counter, Pow2, Width;
    var n := Pow2(w);
    assert n >= 1;
    var results: seq<int> := seq(n, j requires 0 <= j < n && Width(w) => Result(w, seed, first + j));
    forall i, j | 0 <= i < j < n ensures results[i] != results[j] {
      PeriodIsExact(w, seed, first + i, first + j);
      SmallMod(n, j - i);
    }
    forall j | 0 <= j < n ensures 0 <= results[j] < n {
      assert results[j] == Result(w, seed, first + j);
    }
    Pigeonhole(results, n);
    assert word in results;
    var m :| 0 <= m < n && results[m] == word;
    k := first + m;
    forall j | first <= j < first + n && Result(w, seed, j) == word ensures j == k {
      assert results[j - first] == word;
    }
  }

  // ----- the generator

  /** ut_rnd_ulint_counter and the routines that use it. */
  class Generator {
    const w: nat
    var counter: nat

    constructor (w: nat)
      requires Width(w)
      ensures Valid() && this.w == w && counter == 65654363
    {
      this.w, counter := w, 65654363;
      new;
      WidthBounds(w);
    }

    predicate Valid()
      reads this
    {
      Width(w) && counter < Pow2(w)
    }

    /** ut_rnd_set_seed. */
    method SetSeed(seed: nat)
      requires Valid() && seed < Pow2(w)
      modifies this
      ensures Valid() && counter == seed
    {
      counter := seed;
    }

    /** ut_rnd_gen_ulint: the next call in the run from any seed the counter may have come from. */
    method GenUlint() returns (rnd: nat)
      requires Valid()
      modifies this
      ensures Valid() && counter == Counter(w, old(counter), 1) && rnd == Result(w, old(counter), 1)
      ensures forall seed, k: nat :: old(counter) == Counter(w, seed, k) ==>
                counter == Counter(w, seed, k + 1) && rnd == Result(w, seed, k + 1)
    {
      counter := Affine(w, RND1, RND2, counter);
      assert Counter(w, old(counter), 1) == Affine(w, RND1, RND2, Counter(w, old(counter), 0));
      rnd := Next(w, counter);
    }

    /** ut_rnd_interval. Unlike its comment says, `high` itself comes out only when it equals `low`. */
    method Interval(low: nat, high: nat) returns (r: nat)
      requires Valid() && low <= high < Pow2(w)
      modifies this
      ensures Valid() && low <= r <= high
      ensures r == high <==> low == high
      ensures low == high ==> counter == old(counter)
      ensures low < high ==> r == low + Result(w, old(counter), 1) % (high - low)
    {
      if low == high {
        return low;
      }
      var rnd := GenUlint();
      r := low + rnd % (high - low);
    }
  }
}
