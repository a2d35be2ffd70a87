/** Hash folding of ut0rnd.cc. */
module Folding {
  import opened Words
  import opened RandomGenerator

  const RANDOM_MASK := 1463735687
  const RANDOM_MASK2 := 1653893711

  /** The inner sum of ut_fold_ulint_pair. */
  function ShiftMix(w: nat, n1: nat, n2: nat): nat {
    Wrap(w, Wrap(w, Xor(Xor(n1, n2), RANDOM_MASK2) * 0x100) + n1)
  }

  /** ut_fold_ulint_pair. */
  function FoldPair(w: nat, n1: nat, n2: nat): (r: nat)
    ensures r < Pow2(w)
  {
    Wrap(w, Xor(ShiftMix(w, n1, n2), RANDOM_MASK) + n2)
  }

  /** The plain fold: one byte after the other. */
  function FoldBytes(w: nat, s: seq<Byte>): (r: nat)
    ensures r < Pow2(w)
  {
    if s == [] then 0 else FoldPair(w, FoldBytes(w, s[..|s| - 1]), s[|s| - 1])
  }

  lemma FoldNext(w: nat, s: seq<Byte>, i: nat)
    requires i < |s|
    ensures FoldBytes(w, s[..i + 1]) == FoldPair(w, FoldBytes(w, s[..i]), s[i])
  {
    assert s[..i + 1][..i] == s[..i];
  }

  /** One `fold = ut_fold_ulint_pair(fold, *str++)`. */
  method FoldStep(w: nat, str: array<Byte>, fold: nat, p: nat) returns (fold': nat, p': nat)
    requires p < str.Length && fold == FoldBytes(w, str[..p])
    ensures p' == p + 1 && fold' == FoldBytes(w, str[..p'])
  {
    FoldNext(w, str[..], p);
    assert str[..][..p] == str[..p] && str[..][..p + 1] == str[..p + 1];
    fold', p' := FoldPair(w, fold, str[p]), p + 1;
  }

  /** The body of the loop. */
  method FoldEight(w: nat, str: array<Byte>, fold: nat, p: nat) returns (fold': nat, p': nat)
    requires p + 8 <= str.Length && fold == FoldBytes(w, str[..p])
    ensures p' == p + 8 && fold' == FoldBytes(w, str[..p'])
  {
    hide FoldBytes;
    fold', p' := FoldStep(w, str, fold, p);
    fold', p' := FoldStep(w, str, fold', p');
    fold', p' := FoldStep(w, str, fold', p');
    fold', p' := FoldStep(w, str, fold', p');
    fold', p' := FoldStep(w, str, fold', p');
    fold', p' := FoldStep(w, str, fold', p');
    fold', p' := FoldStep(w, str, fold', p');
    fold', p' := FoldStep(w, str, fold', p');
  }

  /** The switch: it enters at the number of remaining bytes and falls through. */
  method FoldRest(w: nat, str: array<Byte>, fold: nat, p: nat, rest: nat) returns (fold': nat, p': nat)
    requires rest < 8 && p + rest <= str.Length && fold == FoldBytes(w, str[..p])
    ensures p' == p + rest && fold' == FoldBytes(w, str[..p'])
  {
    hide FoldBytes;
    fold', p' := fold, p;
    if rest >= 7 { fold', p' := FoldStep(w, str, fold', p'); }
    if rest >= 6 { fold', p' := FoldStep(w, str, fold', p'); }
    if rest >= 5 { fold', p' := FoldStep(w, str, fold', p'); }
    if rest >= 4 { fold', p' := FoldStep(w, str, fold', p'); }
    if rest >= 3 { fold', p' := FoldStep(w, str, fold', p'); }
    if rest >= 2 { fold', p' := FoldStep(w, str, fold', p'); }
    if rest >= 1 { fold', p' := FoldStep(w, str, fold', p'); }
  }

  /** len & 0xFFFFFFF8. */
  function WholeEights(len: nat): (end: nat)
    ensures end % 8 == 0 && end + len % 8 == len % 0x1_0000_0000 && end + len % 8 <= len
  {
    len % 0x1_0000_0000 - len % 8
  }

  function EmptyFold(w: nat, s: seq<Byte>): (f: nat)
    ensures f == FoldBytes(w, s[..0])
  {
    0
  }

  /**
    * ut_fold_binary: eight bytes at a time, then the rest. The mask that rounds the length down has 32 bits, so
    * only len modulo 2^32 bytes are folded.
    */
  method FoldBinary(w: nat, str: array<Byte>, len: nat) returns (fold: nat)
    requires Width(w) && len <= str.Length && len < Pow2(w)
    ensures fold == FoldBytes(w, str[..len % 0x1_0000_0000])
  {
    hide FoldBytes, WholeEights;
    fold := EmptyFold(w, str[..]);
    assert str[..][..0] == str[..0];
    var end := WholeEights(len);
    var p := 0;
    while p < end
      invariant p <= end && p % 8 == 0 && fold == FoldBytes(w, str[..p])
    {
      fold, p := FoldEight(w, str, fold, p);
    }
    fold, p := FoldRest(w, str, fold, p, len % 8);
  }

  // ----- the plain fold tells strings apart that differ in one byte

  lemma DividesPart(a: int, b: int, x: int)
    requires Divides(a * b, x)
    ensures Divides(a, x)
  {
    var q :| x == a * b * q;
    assert x == a * (b * q);
  }

  lemma DividesSmaller(j: nat, k: nat, x: int)
    requires j <= k && Divides(Pow2(k), x)
    ensures Divides(Pow2(j), x)
  {
    hide Pow2;
    Pow2Add(j, k - j);
    DividesPart(Pow2(j), Pow2(k - j), x);
  }

  lemma DividesSum(d: int, x: int, y: int)
    requires Divides(d, x) && Divides(d, y)
    ensures Divides(d, x - y)
  {
    var p :| x == d * p;
    var q :| y == d * q;
    assert x - y == d * (p - q);
  }

  lemma DividesScaled(d: int, x: int, c: int)
    requires Divides(d, x)
    ensures Divides(d * c, c * x)
  {
    var q :| x == d * q;
    assert c * x == d * c * q;
  }

  lemma DividesShifted(k: nat, x: int)
    requires Divides(Pow2(k), x)
    ensures Divides(Pow2(k + 8), 0x100 * x)
  {
    hide Pow2;
    Pow2Values();
    Pow2Add(k, 8);
    DividesScaled(Pow2(k), x, 0x100);
  }

  lemma WrapTwice(n: nat, x: nat, y: nat)
    requires n > 0
    ensures (x % n + y) % n == (x + y) % n
  {
    assert 1 * (x % n) == x % n && 1 * x == x;
    WrapInside(n, 1, y, x);
  }

  /** Eight more low bits agree. */
  lemma EightMoreBits(w: nat, a: nat, b: nat, c: nat, k: nat, m: nat)
    requires ShiftMix(w, a, c) == ShiftMix(w, b, c) && Divides(Pow2(k), a - b) && m <= k + 8 && m <= w
    ensures Divides(Pow2(m), a - b)
  {
    hide Pow2, Xor;
    var x, y := Xor(Xor(a, c), RANDOM_MASK2), Xor(Xor(b, c), RANDOM_MASK2);
    CongruentIff(Pow2(k), a, b);
    XorLowBits(a, b, c, k);
    XorLowBits(Xor(a, c), Xor(b, c), RANDOM_MASK2, k);
    CongruentIff(Pow2(k), x, y);
    DividesShifted(k, x - y);
    DividesSmaller(m, k + 8, 0x100 * (x - y));
    WrapTwice(Pow2(w), x * 0x100, a);
    WrapTwice(Pow2(w), y * 0x100, b);
    CongruentIff(Pow2(w), x * 0x100 + a, y * 0x100 + b);
    DividesSmaller(m, w, (x * 0x100 + a) - (y * 0x100 + b));
    DividesSum(Pow2(m), (x * 0x100 + a) - (y * 0x100 + b), 0x100 * (x - y));
  }

  lemma {:induction false} LowBitsAgree(w: nat, a: nat, b: nat, c: nat, m: nat)
    requires ShiftMix(w, a, c) == ShiftMix(w, b, c) && m <= w
    ensures Divides(Pow2(m), a - b)
  {
    if m == 0 {
      assert a - b == Pow2(0) * (a - b);
    } else {
      var k := if m < 8 then 0 else m - 8;
      LowBitsAgree(w, a, b, c, k);
      EightMoreBits(w, a, b, c, k, m);
    }
  }

  lemma ShiftMixInjective(w: nat, a: nat, b: nat, c: nat)
    requires a < Pow2(w) && b < Pow2(w) && ShiftMix(w, a, c) == ShiftMix(w, b, c)
    ensures a == b
  {
    hide Pow2, ShiftMix;
    LowBitsAgree(w, a, b, c, w);
    CongruentIff(Pow2(w), a, b);
    SmallMod(Pow2(w), a);
    SmallMod(Pow2(w), b);
  }

  lemma ShiftMixBound(w: nat, a: nat, c: nat)
    ensures ShiftMix(w, a, c) < Pow2(w)
  {
  }

  lemma SameSum(n: nat, x: nat, y: nat, c: nat)
    requires x < n && y < n && (x + c) % n == (y + c) % n
    ensures x == y
  {
    CongruentIff(n, x + c, y + c);
    CongruentIff(n, x, y);
    SmallMod(n, x);
    SmallMod(n, y);
  }

  /** ut_fold_ulint_pair never merges two different first arguments. */
  lemma FoldPairInjective(w: nat, a: nat, b: nat, c: nat)
    requires Width(w) && a < Pow2(w) && b < Pow2(w) && FoldPair(w, a, c) == FoldPair(w, b, c)
    ensures a == b
  {
    hide Pow2, ShiftMix, Xor;
    WidthBounds(w);
    var x, y := ShiftMix(w, a, c), ShiftMix(w, b, c);
    ShiftMixBound(w, a, c);
    ShiftMixBound(w, b, c);
    XorBound(x, RANDOM_MASK, w);
    XorBound(y, RANDOM_MASK, w);
    SameSum(Pow2(w), Xor(x, RANDOM_MASK), Xor(y, RANDOM_MASK), c);
    XorInvolution(x, RANDOM_MASK);
    XorInvolution(y, RANDOM_MASK);
    ShiftMixInjective(w, a, b, c);
  }

  lemma ByteSumsDiffer(x: nat, a: Byte, b: Byte)
    requires a != b
    ensures (x + a) % 0x100 != (x + b) % 0x100
  {
  }

  lemma LowOfShifted(z: nat, n: nat)
    ensures (z * 0x100 + n) % 0x100 == n % 0x100
  {
  }

  /** Wrapping keeps the low byte. */
  lemma WrapLow(w: nat, x: nat)
    requires Width(w)
    ensures Wrap(w, x) % 0x100 == x % 0x100
  {
    Pow2Values();
    Pow2Add(8, w - 8);
    hide Pow2;
    var r, q := DivMod(Pow2(w), x);
    assert x - r == 0x100 * (Pow2(w - 8) * q);
    CongruentIff(0x100, x, r);
  }

  lemma ShiftMixLow(w: nat, n1: nat, c: nat)
    requires Width(w)
    ensures ShiftMix(w, n1, c) % 0x100 == n1 % 0x100
  {
    hide Xor, Pow2;
    var z := Xor(Xor(n1, c), RANDOM_MASK2);
    WrapTwice(Pow2(w), z * 0x100, n1);
    WrapLow(w, z * 0x100 + n1);
    LowOfShifted(z, n1);
  }

  lemma XorLowByte(a: nat, b: nat)
    requires a % 0x100 == b % 0x100
    ensures Xor(a, RANDOM_MASK) % 0x100 == Xor(b, RANDOM_MASK) % 0x100
  {
    hide Xor, Pow2;
    Pow2Values();
    XorLowBits(a, b, RANDOM_MASK, 8);
  }

  /** The low byte of the fold: the shifted part does not reach it. */
  lemma LowByte(w: nat, n1: nat, c: Byte)
    requires Width(w)
    ensures FoldPair(w, n1, c) % 0x100 == (Xor(n1, RANDOM_MASK) + c) % 0x100
  {
    hide Xor, ShiftMix;
    ShiftMixLow(w, n1, c);
    XorLowByte(ShiftMix(w, n1, c), n1);
    var x, y := Xor(ShiftMix(w, n1, c), RANDOM_MASK), Xor(n1, RANDOM_MASK);
    WrapLow(w, x + c);
    hide Wrap, Pow2;
    WrapTwice(0x100, x, c);
    WrapTwice(0x100, y, c);
  }

  /** The last byte counts: two bytes are folded into different values. */
  lemma LastByteCounts(w: nat, n1: nat, a: Byte, b: Byte)
    requires Width(w) && a != b
    ensures FoldPair(w, n1, a) != FoldPair(w, n1, b)
  {
    hide Xor, FoldPair, Pow2;
    LowByte(w, n1, a);
    LowByte(w, n1, b);
    ByteSumsDiffer(Xor(n1, RANDOM_MASK), a, b);
  }

  /** The fold of the first len modulo 2^32 bytes is the fold of all bytes, for every string of a length, iff
      the length fits in 32 bits. */
  lemma FoldsAllBytesIff(w: nat, len: nat)
    requires Width(w)
    ensures (forall s: seq<Byte> :: |s| == len ==> FoldBytes(w, s[..len % 0x1_0000_0000]) == FoldBytes(w, s))
            <==> len < 0x1_0000_0000
  {
    var m := len % 0x1_0000_0000;
    if len < 0x1_0000_0000 {
      forall s: seq<Byte> | |s| == len ensures FoldBytes(w, s[..m]) == FoldBytes(w, s) {
        assert s[..m] == s;
      }
    } else {
      var front: seq<Byte> := seq(len - 1, _ => 0);
      var s, t: seq<Byte> := front + [0], front + [1];
      assert s[..len - 1] == front == t[..len - 1];
      LastByteCounts(w, FoldBytes(w, front), 0, 1);
      assert s[..m] == t[..m];
    }
  }
}
