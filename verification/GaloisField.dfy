/** The field GF(2^8) of section 4 of FIPS-197, and the powers of its generator {03}. */
module GaloisField {
  import Words

  /** Addition, section 4.1 of FIPS-197. */
  function Add(a: bv8, b: bv8): bv8 {
    a ^ b
  }

  lemma AddAssociates(a: bv8, b: bv8, c: bv8)
    ensures Add(Add(a, b), c) == Add(a, Add(b, c))
  {
    assert (a ^ b) ^ c == a ^ (b ^ c);
  }

  lemma AddCommutes(a: bv8, b: bv8)
    ensures Add(a, b) == Add(b, a)
  {
  }

  lemma AddSwap(a: bv8, b: bv8, c: bv8, d: bv8)
    ensures Add(Add(a, b), Add(c, d)) == Add(Add(a, c), Add(b, d))
  {
    hide Add;
    AddAssociates(a, b, Add(c, d));
    AddAssociates(b, c, d);
    AddCommutes(b, c);
    AddAssociates(c, b, d);
    AddAssociates(a, c, Add(b, d));
  }

  /** Multiplication by x. The mask is all ones when the shifted-out bit was set. */
  function Xtime(x: bv8): bv8 {
    (x << 1) ^ (0x1b & (0 - (x >> 7)))
  }

  lemma XtimeConditional(x: bv8)
    ensures Xtime(x) == (x << 1) ^ (if x & 0x80 != 0 then 0x1b else 0x00)
  {
  }

  /** One step of Horner's rule: `bit` is 0 or 1. */
  function Horner(bit: bv8, a: bv8, rest: bv8): bv8 {
    Add(a & (0 - bit), Xtime(rest))
  }

  /** Multiplication of `a` by the polynomial in the n lowest bits of `b`, the highest bit first. */
  function MulBits(a: bv8, b: bv8, n: nat): bv8
    decreases n
  {
    if n == 0 then 0 else Horner(b & 1, a, MulBits(a, b >> 1, n - 1))
  }

  function Mul(a: bv8, b: bv8): bv8 {
    MulBits(a, b, 8)
  }

  /** Multiplication by the generator {03}. */
  function Triple(x: bv8): bv8 {
    Add(x, Xtime(x))
  }

  function Pow(i: nat): bv8 {
    if i == 0 then 1 else Triple(Pow(i - 1))
  }

  lemma TripleInjective(x: bv8, y: bv8)
    requires Triple(x) == Triple(y)
    ensures x == y
  {
  }

  lemma TripleZero()
    ensures Triple(0) == 0
  {
  }

  lemma XtimeLinear(x: bv8, y: bv8)
    ensures Xtime(Add(x, y)) == Add(Xtime(x), Xtime(y))
  {
  }

  lemma TripleLinear(x: bv8, y: bv8)
    ensures Triple(Add(x, y)) == Add(Triple(x), Triple(y))
  {
    hide Add, Xtime;
    XtimeLinear(x, y);
    AddSwap(x, y, Xtime(x), Xtime(y));
  }

  lemma TripleXtime(x: bv8)
    ensures Triple(Xtime(x)) == Xtime(Triple(x))
  {
    hide Add, Xtime;
    XtimeLinear(x, Xtime(x));
  }

  lemma HornerBit(a: bv8, rest: bv8)
    ensures Horner(0, a, rest) == Xtime(rest) && Horner(1, a, rest) == Add(a, Xtime(rest))
  {
    hide Xtime;
  }

  lemma TripleHorner(bit: bv8, a: bv8, rest: bv8)
    requires bit == 0 || bit == 1
    ensures Horner(bit, Triple(a), Triple(rest)) == Triple(Horner(bit, a, rest))
  {
    hide Horner, Xtime, Triple, Add;
    HornerBit(a, rest);
    HornerBit(Triple(a), Triple(rest));
    TripleXtime(rest);
    TripleLinear(a, Xtime(rest));
  }

  lemma LowBit(b: bv8)
    ensures b & 1 == 0 || b & 1 == 1
  {
  }

  lemma {:induction false} MulBitsTriple(a: bv8, b: bv8, n: nat)
    ensures MulBits(Triple(a), b, n) == Triple(MulBits(a, b, n))
    decreases n
  {
    hide Horner, Xtime, Triple;
    TripleZero();
    if n > 0 {
      MulBitsTriple(a, b >> 1, n - 1);
      TripleHorner(b & 1, a, MulBits(a, b >> 1, n - 1));
    }
  }

  lemma HornerOne(b: bv8)
    ensures Horner(b & 1, 1, b >> 1) == b
  {
  }

  function MulUnrolled(a: bv8, b: bv8): bv8 {
    Horner(b & 1, a, Horner((b >> 1) & 1, a, Horner((b >> 2) & 1, a, Horner((b >> 3) & 1, a,
      Horner((b >> 4) & 1, a, Horner((b >> 5) & 1, a, Horner((b >> 6) & 1, a, Horner((b >> 7) & 1, a, 0))))))))
  }

  lemma MulUnrolls(a: bv8, b: bv8)
    ensures Mul(a, b) == MulUnrolled(a, b)
  {
    hide Horner;
    var b1, b2, b3, b4, b5, b6, b7 := b >> 1, b >> 2, b >> 3, b >> 4, b >> 5, b >> 6, b >> 7;
    assert b1 >> 1 == b2 && b2 >> 1 == b3 && b3 >> 1 == b4 && b4 >> 1 == b5 && b5 >> 1 == b6 && b6 >> 1 == b7;
    var r7 := MulBits(a, b7, 1);
    assert r7 == Horner(b7 & 1, a, 0);
    var r6 := MulBits(a, b6, 2);
    assert r6 == Horner(b6 & 1, a, r7);
    var r5 := MulBits(a, b5, 3);
    assert r5 == Horner(b5 & 1, a, r6);
    var r4 := MulBits(a, b4, 4);
    assert r4 == Horner(b4 & 1, a, r5);
    var r3 := MulBits(a, b3, 5);
    assert r3 == Horner(b3 & 1, a, r4);
    var r2 := MulBits(a, b2, 6);
    assert r2 == Horner(b2 & 1, a, r3);
    var r1 := MulBits(a, b1, 7);
    assert r1 == Horner(b1 & 1, a, r2);
  }

  lemma MulOne(a: bv8)
    ensures Mul(1, a) == a
  {
    MulUnrolls(1, a);
    hide Mul, Horner;
    HornerOne(a >> 7);
    HornerOne(a >> 6);
    HornerOne(a >> 5);
    HornerOne(a >> 4);
    HornerOne(a >> 3);
    HornerOne(a >> 2);
    HornerOne(a >> 1);
    HornerOne(a);
    assert (a >> 7) >> 1 == 0 && (a >> 6) >> 1 == a >> 7 && (a >> 5) >> 1 == a >> 6 && (a >> 4) >> 1 == a >> 5;
    assert (a >> 3) >> 1 == a >> 4 && (a >> 2) >> 1 == a >> 3 && (a >> 1) >> 1 == a >> 2;
  }

  /** Multiplying powers adds exponents. */
  lemma {:induction false} MulPow(i: nat, j: nat)
    ensures Mul(Pow(i), Pow(j)) == Pow(i + j)
  {
    hide Xtime, Triple, MulBits;
    if i == 0 {
      MulOne(Pow(j));
    } else {
      MulBitsTriple(Pow(i - 1), Pow(j), 8);
      MulPow(i - 1, j);
    }
  }

  lemma MulValues()
    ensures Mul(0x33, 0x33) == 0x72 && Mul(0x72, 0x33) == 0x35 && Mul(0x35, 0x05) == 0xe1
  {
    MulUnrolls(0x33, 0x33);
    MulUnrolls(0x72, 0x33);
    MulUnrolls(0x35, 0x05);
    hide Mul;
  }

  lemma MoreMulValues()
    ensures Mul(0xe1, 0xe1) == 0x5c && Mul(0x5c, 0xe1) == 0x0c && Mul(0x0c, 0x5c) == 0xbd
    ensures Mul(0xbd, 0xbd) == 0xbc && Mul(0xbc, 0xbd) == 0x01
  {
    MulUnrolls(0xe1, 0xe1);
    MulUnrolls(0x5c, 0xe1);
    MulUnrolls(0x0c, 0x5c);
    MulUnrolls(0xbd, 0xbd);
    MulUnrolls(0xbc, 0xbd);
    hide Mul;
  }

  lemma PowSmall()
    ensures Pow(2) == 0x05 && Pow(5) == 0x33
  {
    assert Pow(1) == 0x03;
    assert Pow(3) == 0x0f;
    assert Pow(4) == 0x11;
  }

  /** The order of {03} divides 255 and no proper divisor of it. */
  lemma PowValues()
    ensures Pow(15) == 0x35 && Pow(51) == 0x0c && Pow(85) == 0xbd && Pow(255) == 1
  {
    hide Mul, Pow;
    PowSmall();
    MulValues();
    MoreMulValues();
    MulPow(5, 5);
    MulPow(10, 5);
    MulPow(15, 2);
    MulPow(17, 17);
    MulPow(34, 17);
    MulPow(51, 34);
    MulPow(85, 85);
    MulPow(170, 85);
  }

  // ----- the powers run through every nonzero byte

  lemma {:induction false} PowNonzero(i: nat)
    ensures Pow(i) != 0
  {
    if i > 0 {
      PowNonzero(i - 1);
      TripleZero();
      if Triple(Pow(i - 1)) == 0 {
        TripleInjective(Pow(i - 1), 0);
      }
    }
  }

  /** Equal powers differ by an exponent of one. */
  lemma {:induction false} PowCancel(i: nat, d: nat)
    requires Pow(i + d) == Pow(i)
    ensures Pow(d) == 1
  {
    if i > 0 {
      TripleInjective(Pow(i - 1 + d), Pow(i - 1));
      PowCancel(i - 1, d);
    }
  }

  lemma {:induction false} PowMultiple(d: nat, k: nat)
    requires Pow(d) == 1
    ensures Pow(d * k) == 1
  {
    if k > 0 {
      PowMultiple(d, k - 1);
      MulPow(d, d * (k - 1));
      MulOne(1);
      assert d * k == d + d * (k - 1);
    }
  }

  /** Euclid's algorithm on the exponents of one. */
  lemma {:induction false} PowGcd(a: nat, b: nat) returns (g: nat, p: nat, q: nat)
    requires a > 0 && b > 0 && Pow(a) == 1 && Pow(b) == 1
    ensures g > 0 && Pow(g) == 1 && g * p == a && g * q == b
    decreases a + b
  {
    if a == b {
      g, p, q := a, 1, 1;
    } else if a > b {
      PowCancel(b, a - b);
      g, p, q := PowGcd(a - b, b);
      p := p + q;
    } else {
      PowCancel(a, b - a);
      g, p, q := PowGcd(a, b - a);
      q := p + q;
    }
  }

  lemma SmallDivisor(k: nat, m: nat)
    requires k <= 15 && k * m == 255
    ensures (k == 1 && m == 255) || (k == 3 && m == 85) || (k == 5 && m == 51) || (k == 15 && m == 17)
  {
    assert k == 0 || k == 1 || k == 2 || k == 3 || k == 4 || k == 5 || k == 6 || k == 7 || k == 8 || k == 9 || k == 10
        || k == 11 || k == 12 || k == 13 || k == 14 || k == 15;
  }

  lemma DivisorOf255(g: nat, q: nat, p: nat)
    requires g * q == 255 && 0 < g * p < 255
    ensures g * (q / 3) == 85 || g * (q / 5) == 51 || g * (q / 17) == 15
  {
    if q <= 15 {
      SmallDivisor(q, g);
    } else {
      assert g * 16 <= g * q;
      SmallDivisor(g, q);
    }
  }

  /** No power between the 0th and the 255th is one. */
  lemma PowOrder(d: nat)
    requires 0 < d < 255
    ensures Pow(d) != 1
  {
    hide Pow;
    if Pow(d) == 1 {
      PowValues();
      var g, p, q := PowGcd(d, 255);
      DivisorOf255(g, q, p);
      if g * (q / 3) == 85 {
        PowMultiple(g, q / 3);
      } else if g * (q / 5) == 51 {
        PowMultiple(g, q / 5);
      } else {
        PowMultiple(g, q / 17);
      }
    }
  }

  /** Different exponents below 255 give different powers. */
  lemma PowInjective(i: nat, j: nat)
    requires i < j < 255
    ensures Pow(i) != Pow(j)
  {
    if Pow(i) == Pow(j) {
      PowCancel(i, j - i);
      PowOrder(j - i);
    }
  }

  ghost function PowOrZero(i: nat): nat {
    if i == 255 then 0 else Pow(i) as int
  }

  lemma PowOrZeroDistinct(i: nat, j: nat)
    requires i < j < 256
    ensures PowOrZero(i) != PowOrZero(j)
  {
    hide Pow;
    PowNonzero(i);
    if j < 255 {
      PowInjective(i, j);
    }
  }

  /** Every nonzero byte is a power of {03}. */
  lemma PowSurjective(x: bv8) returns (i: nat)
    requires x != 0
    ensures i < 255 && Pow(i) == x
  {
    hide Pow;
    var s := seq(256, j requires 0 <= j < 256 => PowOrZero(j));
    forall i, j | 0 <= i < j < 256 ensures s[i] != s[j] {
      PowOrZeroDistinct(i, j);
    }
    Words.Pigeonhole(s, 256);
    assert x as int in s;
    i :| 0 <= i < 256 && s[i] == x as int;
  }

  lemma {:induction false} PowPeriodic(n: nat)
    ensures Pow(n) == Pow(n % 255)
  {
    hide Pow, Mul;
    if n >= 255 {
      PowValues();
      MulPow(255, n - 255);
      MulOne(Pow(n - 255));
      PowPeriodic(n - 255);
      assert (n - 255) % 255 == n % 255;
    }
  }

  // ----- multiplicative inverses

  lemma InverseExists(x: bv8) returns (y: bv8)
    requires x != 0
    ensures Mul(x, y) == 1
  {
    var i := PowSurjective(x);
    y := Pow(255 - i);
    MulPow(i, 255 - i);
    PowValues();
  }

  lemma {:induction false} PowCancelBoth(i: nat, a: nat, b: nat)
    requires Pow(i + a) == Pow(i + b)
    ensures Pow(a) == Pow(b)
  {
    if i > 0 {
      TripleInjective(Pow(i - 1 + a), Pow(i - 1 + b));
      PowCancelBoth(i - 1, a, b);
    }
  }

  lemma {:induction false} MulBitsByZero(a: bv8, n: nat)
    ensures MulBits(a, 0, n) == 0
    decreases n
  {
    if n > 0 {
      MulBitsByZero(a, n - 1);
    }
  }

  /** The only inverse of the i-th power is the (255 - i)-th. */
  lemma InverseOfPow(i: nat, y: bv8)
    requires i <= 255 && Mul(Pow(i), y) == 1
    ensures y == Pow(255 - i)
  {
    if y == 0 {
      MulBitsByZero(Pow(i), 8);
    } else {
      var j := PowSurjective(y);
      MulPow(i, j);
      MulPow(i, 255 - i);
      PowValues();
      PowCancelBoth(i, j, 255 - i);
    }
  }

  /** The inverse of section 5.1.1 of FIPS-197; the zero byte is its own. */
  ghost function Inverse(x: bv8): (y: bv8)
    ensures x != 0 ==> Mul(x, y) == 1
    ensures x == 0 ==> y == 0
  {
    if x == 0 then 0
    else
      assert exists y :: Mul(x, y) == 1 by { var y := InverseExists(x); }
      var y :| Mul(x, y) == 1;
      y
  }

  lemma InversePow(i: nat)
    requires i <= 255
    ensures Inverse(Pow(i)) == Pow(255 - i)
  {
    PowNonzero(i);
    InverseOfPow(i, Inverse(Pow(i)));
  }

  lemma InverseInvolution(x: bv8)
    ensures Inverse(Inverse(x)) == x
  {
    if x != 0 {
      var i := PowSurjective(x);
      InversePow(i);
      InversePow(255 - i);
    }
  }

  // ----- multiplication distributes over addition

  lemma HornerLinear(bit: bv8, a: bv8, b: bv8, r: bv8, t: bv8)
    requires bit == 0 || bit == 1
    ensures Horner(bit, Add(a, b), Add(r, t)) == Add(Horner(bit, a, r), Horner(bit, b, t))
  {
    hide Horner, Xtime, Add;
    HornerBit(a, r);
    HornerBit(b, t);
    HornerBit(Add(a, b), Add(r, t));
    XtimeLinear(r, t);
    AddSwap(a, b, Xtime(r), Xtime(t));
  }

  lemma {:induction false} MulBitsLinear(a: bv8, b: bv8, c: bv8, n: nat)
    ensures MulBits(Add(a, b), c, n) == Add(MulBits(a, c, n), MulBits(b, c, n))
    decreases n
  {
    hide Horner;
    if n > 0 {
      LowBit(c);
      MulBitsLinear(a, b, c >> 1, n - 1);
      HornerLinear(c & 1, a, b, MulBits(a, c >> 1, n - 1), MulBits(b, c >> 1, n - 1));
    }
  }

  lemma MulLinear(a: bv8, b: bv8, c: bv8)
    ensures Mul(Add(a, b), c) == Add(Mul(a, c), Mul(b, c))
  {
    MulBitsLinear(a, b, c, 8);
  }

  lemma XtimeZero()
    ensures Xtime(0) == 0 && forall y :: Add(y, 0) == y
  {
  }

  /** The multiples MixColumns and InvMixColumns use. */
  lemma MulByConstants(y: bv8)
    ensures Mul(y, 0x01) == y
    ensures Mul(y, 0x02) == Xtime(y)
    ensures Mul(y, 0x03) == Add(y, Xtime(y))
    ensures Mul(y, 0x09) == Add(y, Xtime(Xtime(Xtime(y))))
    ensures Mul(y, 0x0b) == Add(y, Xtime(Add(y, Xtime(Xtime(y)))))
    ensures Mul(y, 0x0d) == Add(y, Xtime(Xtime(Add(y, Xtime(y)))))
    ensures Mul(y, 0x0e) == Xtime(Add(y, Xtime(Add(y, Xtime(y)))))
  {
    hide Mul, Horner, Xtime, Add;
    MulUnrolls(y, 0x01);
    MulUnrolls(y, 0x02);
    MulUnrolls(y, 0x03);
    MulUnrolls(y, 0x09);
    MulUnrolls(y, 0x0b);
    MulUnrolls(y, 0x0d);
    MulUnrolls(y, 0x0e);
    HornerBit(y, 0);
    XtimeZero();
    HornerBit(y, y);
    HornerBit(y, Xtime(y));
    HornerBit(y, Add(y, Xtime(y)));
    HornerBit(y, Xtime(Xtime(y)));
    HornerBit(y, Add(y, Xtime(Xtime(y))));
    HornerBit(y, Xtime(Add(y, Xtime(y))));
    HornerBit(y, Add(y, Xtime(Add(y, Xtime(y)))));
  }

  lemma {:induction false} MulBitsOfZero(b: bv8, n: nat)
    ensures MulBits(0, b, n) == 0
    decreases n
  {
    hide Horner;
    if n > 0 {
      MulBitsOfZero(b >> 1, n - 1);
      LowBit(b);
      HornerBit(0, 0);
      XtimeZero();
    }
  }

  lemma MulByZero(a: bv8)
    ensures Mul(a, 0) == 0 && Mul(0, a) == 0
  {
    MulBitsByZero(a, 8);
    MulBitsOfZero(a, 8);
  }

  lemma MulCommutes(a: bv8, b: bv8)
    ensures Mul(a, b) == Mul(b, a)
  {
    hide Mul, Pow;
    MulByZero(a);
    MulByZero(b);
    if a != 0 && b != 0 {
      var i := PowSurjective(a);
      var j := PowSurjective(b);
      MulPow(i, j);
      MulPow(j, i);
    }
  }

  lemma MulAssociates(a: bv8, b: bv8, c: bv8)
    ensures Mul(Mul(a, b), c) == Mul(a, Mul(b, c))
  {
    hide Mul, Pow;
    MulByZero(a);
    MulByZero(b);
    MulByZero(c);
    if a != 0 && b != 0 && c != 0 {
      var i := PowSurjective(a);
      var j := PowSurjective(b);
      var k := PowSurjective(c);
      MulPow(i, j);
      MulPow(j, k);
      MulPow(i + j, k);
      MulPow(i, j + k);
    } else if b == 0 {
    } else if c == 0 {
      MulByZero(Mul(a, b));
    } else {
      MulByZero(Mul(b, c));
    }
  }

  lemma MulLinearRight(a: bv8, b: bv8, c: bv8)
    ensures Mul(a, Add(b, c)) == Add(Mul(a, b), Mul(a, c))
  {
    hide Mul, Add;
    MulCommutes(a, Add(b, c));
    MulCommutes(a, b);
    MulCommutes(a, c);
    MulLinear(b, c, a);
  }
}
