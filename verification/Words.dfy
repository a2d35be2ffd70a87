/** Unsigned machine words of w bits as naturals: powers of two, exclusive or, divisibility. */
module Words {
  type Byte = b: nat | b < 256

  function Pow2(k: nat): (p: nat)
    ensures p >= 1
  {
    if k == 0 then 1 else 2 * Pow2(k - 1)
  }

  /** The widths an unsigned long has on the platforms of the source; anything wider behaves the same. */
  predicate Width(w: nat) {
    w >= 32
  }

  function Wrap(w: nat, x: int): (r: nat)
    ensures r < Pow2(w)
  {
    x % Pow2(w)
  }

  lemma {:induction false} Pow2Add(a: nat, b: nat)
    ensures Pow2(a + b) == Pow2(a) * Pow2(b)
  {
    if a > 0 {
      Pow2Add(a - 1, b);
      assert Pow2(a + b) == 2 * Pow2(a + b - 1) == 2 * (Pow2(a - 1) * Pow2(b)) == (2 * Pow2(a - 1)) * Pow2(b);
    } else {
      assert Pow2(0) * Pow2(b) == Pow2(b);
    }
  }

  lemma Pow2Values()
    ensures Pow2(8) == 0x100 && Pow2(16) == 0x1_0000 && Pow2(20) == 0x10_0000 && Pow2(32) == 0x1_0000_0000
  {
    assert Pow2(8) == 0x100;
    Pow2Add(8, 8);
    assert Pow2(4) == 0x10;
    Pow2Add(16, 4);
    Pow2Add(16, 16);
  }

  lemma WidthBounds(w: nat)
    requires Width(w)
    ensures Pow2(w) >= 0x1_0000_0000
  {
    Pow2Values();
    Pow2Add(32, w - 32);
    assert Pow2(32) * Pow2(w - 32) >= Pow2(32) * 1;
  }

  // ----- divisibility by powers of two

  ghost predicate Divides(d: int, x: int) {
    exists q: int :: x == d * q
  }

  lemma MulSign(d: int, t: int)
    requires d > 0
    ensures t >= 1 ==> d * t >= d
    ensures t <= -1 ==> d * t <= -d
  {
  }

  lemma MulSub(d: int, a: int, b: int)
    ensures d * (a - b) == d * a - d * b
  {
  }

  lemma ModUnique(d: nat, x: int, q: int, r: nat)
    requires d > 0 && x == d * q + r && r < d
    ensures x % d == r && x / d == q
  {
    MulSub(d, q, x / d);
    MulSign(d, q - x / d);
  }

  lemma DividesMod(d: nat, x: int)
    requires d > 0
    ensures Divides(d, x) <==> x % d == 0
  {
    if x % d == 0 {
      assert x == d * (x / d);
    }
    if Divides(d, x) {
      var q :| x == d * q;
      ModUnique(d, x, q, 0);
    }
  }

  lemma CongruentIff(d: nat, x: int, y: int)
    requires d > 0
    ensures x % d == y % d <==> Divides(d, x - y)
  {
    var a, b := x / d, y / d;
    assert x == d * a + x % d && y == d * b + y % d;
    if x % d == y % d {
      assert x - y == d * (a - b);
    }
    if Divides(d, x - y) {
      var q :| x - y == d * q;
      assert x == d * (q + b) + y % d;
      ModUnique(d, x, q + b, y % d);
    }
  }

  lemma DividesTimes(d: int, a: int, x: int)
    requires Divides(d, x)
    ensures Divides(d, a * x)
  {
    var q :| x == d * q;
    assert a * x == d * (a * q);
  }

  lemma EvenTimesOdd(a: int, x: int, h: int, m: int)
    requires a == 2 * h + 1 && a * x == 2 * m
    ensures x == 2 * (m - h * x) && a * (m - h * x) == m
  {
    assert (2 * h + 1) * x == 2 * (h * x) + x;
    assert a * x == a * (2 * (m - h * x)) == 2 * (a * (m - h * x));
  }

  lemma HalfOf(k: nat, a: int, x: int) returns (y: int)
    requires k > 0 && a % 2 == 1 && Divides(Pow2(k), a * x)
    ensures x == 2 * y && Divides(Pow2(k - 1), a * y)
  {
    var q :| a * x == Pow2(k) * q;
    var m := Pow2(k - 1) * q;
    assert a * x == 2 * m by {
      assert 2 * Pow2(k - 1) * q == 2 * m;
    }
    hide Pow2;
    EvenTimesOdd(a, x, a / 2, m);
    y := m - a / 2 * x;
  }

  lemma DividesDouble(k: nat, x: int)
    ensures Divides(Pow2(k + 1), 2 * x) <==> Divides(Pow2(k), x)
  {
    if Divides(Pow2(k), x) {
      var q :| x == Pow2(k) * q;
      assert 2 * x == Pow2(k + 1) * q;
    }
    if Divides(Pow2(k + 1), 2 * x) {
      var q :| 2 * x == Pow2(k + 1) * q;
      assert 2 * x == 2 * (Pow2(k) * q);
    }
  }

  lemma {:induction false} OddFactorDown(k: nat, a: int, x: int)
    requires a % 2 == 1 && Divides(Pow2(k), a * x)
    ensures Divides(Pow2(k), x)
    decreases k
  {
    if k == 0 {
      assert x == Pow2(0) * x;
    } else {
      var y := HalfOf(k, a, x);
      OddFactorDown(k - 1, a, y);
      DividesDouble(k - 1, y);
    }
  }

  /** An odd factor does not matter for divisibility by a power of two. */
  lemma {:induction false} OddFactor(k: nat, a: int, x: int)
    requires a % 2 == 1
    ensures Divides(Pow2(k), a * x) <==> Divides(Pow2(k), x)
    decreases k
  {
    if Divides(Pow2(k), x) {
      DividesTimes(Pow2(k), a, x);
    } else if Divides(Pow2(k), a * x) {
      OddFactorDown(k, a, x);
    }
  }

  // ----- exclusive or

  function Xor(a: nat, b: nat): nat {
    if a == 0 && b == 0 then 0
    else (if a % 2 == b % 2 then 0 else 1) + 2 * Xor(a / 2, b / 2)
  }

  lemma XorStep(a: nat, b: nat)
    ensures Xor(a, b) == (if a % 2 == b % 2 then 0 else 1) + 2 * Xor(a / 2, b / 2)
  {
  }

  lemma {:induction false} XorInvolution(a: nat, b: nat)
    ensures Xor(Xor(a, b), b) == a
    decreases a + b
  {
    if a != 0 || b != 0 {
      XorInvolution(a / 2, b / 2);
      XorStep(a, b);
      XorStep(Xor(a, b), b);
      assert Xor(a, b) / 2 == Xor(a / 2, b / 2);
    }
  }

  lemma {:induction false} XorBound(a: nat, b: nat, k: nat)
    requires a < Pow2(k) && b < Pow2(k)
    ensures Xor(a, b) < Pow2(k)
    decreases k
  {
    if k > 0 {
      XorBound(a / 2, b / 2, k - 1);
      XorStep(a, b);
    }
  }

  lemma ModOne(x: int)
    ensures x % Pow2(0) == 0
  {
  }

  lemma XorParts(a: nat, b: nat)
    ensures Xor(a, b) % 2 == (if a % 2 == b % 2 then 0 else 1) && Xor(a, b) / 2 == Xor(a / 2, b / 2)
  {
  }

  /** A number below t and a multiple of t determine their sum and are determined by it. */
  lemma TwoParts(t: nat, x: nat, r: nat, y: nat, s: nat)
    requires r < t && s < t
    ensures t * x + r == t * y + s <==> x == y && r == s
  {
    ModUnique(t, t * x + r, x, r);
    ModUnique(t, t * y + s, y, s);
  }

  lemma LowBit(x: nat, k: nat)
    requires k > 0
    ensures x % Pow2(k) == x % 2 + 2 * (x / 2 % Pow2(k - 1))
  {
    var d := Pow2(k - 1);
    var h := x / 2;
    assert h == d * (h / d) + h % d;
    assert x == 2 * h + x % 2 == 2 * d * (h / d) + (2 * (h % d) + x % 2);
    ModUnique(Pow2(k), x, h / d, 2 * (h % d) + x % 2);
  }

  lemma LowBitsEqual(a: nat, b: nat, k: nat)
    requires k > 0
    ensures a % Pow2(k) == b % Pow2(k) <==> a % 2 == b % 2 && a / 2 % Pow2(k - 1) == b / 2 % Pow2(k - 1)
  {
    LowBit(a, k);
    LowBit(b, k);
    hide Pow2;
    var x, y := a / 2 % Pow2(k - 1), b / 2 % Pow2(k - 1);
    TwoParts(2, x, a % 2, y, b % 2);
  }

  /** The low bits of an exclusive or come from the low bits of its arguments. */
  lemma {:induction false} XorLowBits(a: nat, b: nat, c: nat, k: nat)
    requires a % Pow2(k) == b % Pow2(k)
    ensures Xor(a, c) % Pow2(k) == Xor(b, c) % Pow2(k)
    decreases k
  {
    hide Pow2, Xor;
    if k == 0 {
      ModOne(Xor(a, c));
      ModOne(Xor(b, c));
    } else {
      LowBitsEqual(a, b, k);
      XorLowBits(a / 2, b / 2, c / 2, k - 1);
      XorParts(a, c);
      XorParts(b, c);
      LowBitsEqual(Xor(a, c), Xor(b, c), k);
    }
  }

  // ----- counting

  ghost function Below(n: nat): (b: set<int>)
    ensures |b| == n && forall v :: v in b <==> 0 <= v < n
  {
    if n == 0 then {} else Below(n - 1) + {n - 1}
  }

  ghost function Values(s: seq<int>): (v: set<int>)
    ensures forall x :: x in v <==> x in s
  {
    if s == [] then {}
    else
      assert s == s[..|s| - 1] + [s[|s| - 1]];
      Values(s[..|s| - 1]) + {s[|s| - 1]}
  }

  lemma {:induction false} DistinctSize(s: seq<int>)
    requires forall j, k :: 0 <= j < k < |s| ==> s[j] != s[k]
    ensures |Values(s)| == |s|
  {
    if s != [] {
      DistinctSize(s[..|s| - 1]);
    }
  }

  /** n different numbers below n are all the numbers below n. */
  lemma Pigeonhole(s: seq<int>, n: nat)
    requires |s| == n && (forall j :: 0 <= j < n ==> 0 <= s[j] < n)
    requires forall j, k :: 0 <= j < k < n ==> s[j] != s[k]
    ensures forall v :: 0 <= v < n ==> v in s
  {
    DistinctSize(s);
    var missing := Below(n) - Values(s);
    assert Below(n) == Values(s) + missing;
    assert |Below(n)| == |Values(s)| + |missing|;
    assert missing == {};
    forall v | 0 <= v < n ensures v in s {
      assert v in Below(n);
    }
  }
}
