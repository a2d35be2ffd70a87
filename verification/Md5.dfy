/** The MD5 message digest, RFC 1321. */
module Rfc1321 {
  /** The registers A, B, C and D. */
  datatype Quad = Quad(a: bv32, b: bv32, c: bv32, d: bv32)

  const INIT := Quad(0x67452301, 0xefcdab89, 0x98badcfe, 0x10325476)

  function Plus(v: bv32, w: bv32): bv32 {
    v + w
  }

  function RotL(w: bv32, s: bv32): bv32
    requires 1 <= s <= 31
  {
    (w << (s as bv6)) | (w >> ((32 - s) as bv6))
  }

  /** The auxiliary functions of section 3.4: F, G, H and I for rounds 0 to 3. */
  function Aux(round: nat, x: bv32, y: bv32, z: bv32): bv32 {
    match round
    case 0 => (x & y) | ((!x) & z)
    case 1 => (x & z) | (y & (!z))
    case 2 => x ^ y ^ z
    case _ => y ^ (x | (!z))
  }

  /** The message word used in step i. */
  function WordIndex(i: nat): (k: nat)
    ensures k < 16
  {
    if i < 16 then i
    else if i < 32 then (5 * i + 1) % 16
    else if i < 48 then (3 * i + 5) % 16
    else 7 * i % 16
  }

  function Amount(i: nat): (s: bv32)
    ensures 1 <= s <= 31
  {
    if i < 16 then if i % 4 == 0 then 7 else if i % 4 == 1 then 12 else if i % 4 == 2 then 17 else 22
    else if i < 32 then if i % 4 == 0 then 5 else if i % 4 == 1 then 9 else if i % 4 == 2 then 14 else 20
    else if i < 48 then if i % 4 == 0 then 4 else if i % 4 == 1 then 11 else if i % 4 == 2 then 16 else 23
    else if i % 4 == 0 then 6 else if i % 4 == 1 then 10 else if i % 4 == 2 then 15 else 21
  }

  function SineOne(i: nat): bv32 {
    match i
    case 0 => 0xd76aa478 case 1 => 0xe8c7b756 case 2 => 0x242070db case 3 => 0xc1bdceee
    case 4 => 0xf57c0faf case 5 => 0x4787c62a case 6 => 0xa8304613 case 7 => 0xfd469501
    case 8 => 0x698098d8 case 9 => 0x8b44f7af case 10 => 0xffff5bb1 case 11 => 0x895cd7be
    case 12 => 0x6b901122 case 13 => 0xfd987193 case 14 => 0xa679438e case 15 => 0x49b40821
    case _ => 0
  }

  function SineTwo(i: nat): bv32 {
    match i
    case 0 => 0xf61e2562 case 1 => 0xc040b340 case 2 => 0x265e5a51 case 3 => 0xe9b6c7aa
    case 4 => 0xd62f105d case 5 => 0x02441453 case 6 => 0xd8a1e681 case 7 => 0xe7d3fbc8
    case 8 => 0x21e1cde6 case 9 => 0xc33707d6 case 10 => 0xf4d50d87 case 11 => 0x455a14ed
    case 12 => 0xa9e3e905 case 13 => 0xfcefa3f8 case 14 => 0x676f02d9 case 15 => 0x8d2a4c8a
    case _ => 0
  }

  function SineThree(i: nat): bv32 {
    match i
    case 0 => 0xfffa3942 case 1 => 0x8771f681 case 2 => 0x6d9d6122 case 3 => 0xfde5380c
    case 4 => 0xa4beea44 case 5 => 0x4bdecfa9 case 6 => 0xf6bb4b60 case 7 => 0xbebfbc70
    case 8 => 0x289b7ec6 case 9 => 0xeaa127fa case 10 => 0xd4ef3085 case 11 => 0x04881d05
    case 12 => 0xd9d4d039 case 13 => 0xe6db99e5 case 14 => 0x1fa27cf8 case 15 => 0xc4ac5665
    case _ => 0
  }

  function SineFour(i: nat): bv32 {
    match i
    case 0 => 0xf4292244 case 1 => 0x432aff97 case 2 => 0xab9423a7 case 3 => 0xfc93a039
    case 4 => 0x655b59c3 case 5 => 0x8f0ccc92 case 6 => 0xffeff47d case 7 => 0x85845dd1
    case 8 => 0x6fa87e4f case 9 => 0xfe2ce6e0 case 10 => 0xa3014314 case 11 => 0x4e0811a1
    case 12 => 0xf7537e82 case 13 => 0xbd3af235 case 14 => 0x2ad7d2bb case 15 => 0xeb86d391
    case _ => 0
  }

  /** The integer part of 2^32 times the absolute sine of i + 1. */
  function Sine(i: nat): bv32 {
    if i < 16 then SineOne(i) else if i < 32 then SineTwo(i - 16) else if i < 48 then SineThree(i - 32) else SineFour(i - 48)
  }

  /** One of the 64 operations; the registers change places after each. */
  function Operation(i: nat, q: Quad, words: seq<bv32>): Quad
    requires |words| == 16
  {
    var sum := Plus(q.a, Plus(Aux(i / 16, q.b, q.c, q.d), Plus(words[WordIndex(i)], Sine(i))));
    Quad(q.d, Plus(q.b, RotL(sum, Amount(i))), q.b, q.c)
  }

  function Steps(n: nat, q: Quad, words: seq<bv32>): Quad
    requires |words| == 16
  {
    if n == 0 then q else Operation(n - 1, Steps(n - 1, q, words), words)
  }

  /** Bytes to words, the low-order byte first. */
  function WordOf(b0: bv8, b1: bv8, b2: bv8, b3: bv8): bv32 {
    (b0 as bv32) | ((b1 as bv32) << 8) | ((b2 as bv32) << 16) | ((b3 as bv32) << 24)
  }

  function Words(block: seq<bv8>, n: nat): (w: seq<bv32>)
    requires 4 * n <= |block|
    ensures |w| == n
  {
    if n == 0 then []
    else Words(block, n - 1) + [WordOf(block[4 * n - 4], block[4 * n - 3], block[4 * n - 2], block[4 * n - 1])]
  }

  /** One 64-byte block. */
  function Compress(q: Quad, block: seq<bv8>): Quad
    requires |block| == 64
  {
    var r := Steps(64, q, Words(block, 16));
    Quad(Plus(q.a, r.a), Plus(q.b, r.b), Plus(q.c, r.c), Plus(q.d, r.d))
  }

  /** The first n blocks of a message. */
  function Blocks(s: seq<bv8>, n: nat): Quad
    requires 64 * n <= |s|
  {
    if n == 0 then INIT else Compress(Blocks(s, n - 1), s[64 * n - 64..64 * n])
  }

  function WordBytes(w: bv32): (s: seq<bv8>)
    ensures |s| == 4
  {
    [(w & 0xFF) as bv8, ((w >> 8) & 0xFF) as bv8, ((w >> 16) & 0xFF) as bv8, ((w >> 24) & 0xFF) as bv8]
  }

  function DigestOf(q: Quad): (d: seq<bv8>)
    ensures |d| == 16
  {
    WordBytes(q.a) + WordBytes(q.b) + WordBytes(q.c) + WordBytes(q.d)
  }

  // ----- padding, sections 3.1 and 3.2

  function Narrow(n: nat): bv8
    requires n < 0x100
  {
    n as bv8
  }

  function ByteOf(n: nat): bv8 {
    Narrow(n % 0x100)
  }

  /** A count of bits as eight bytes, the low-order byte first. */
  function CountBytes(n: nat): (s: seq<bv8>)
    ensures |s| == 8
  {
    [ByteOf(n), ByteOf(n / 0x100), ByteOf(n / 0x1_0000), ByteOf(n / 0x100_0000), ByteOf(n / 0x1_0000_0000),
     ByteOf(n / 0x100_0000_0000), ByteOf(n / 0x1_0000_0000_0000), ByteOf(n / 0x100_0000_0000_0000)]
  }

  /** How many zero bytes bring the length to 56 modulo 64, after the byte 0x80. */
  function ZeroCount(len: nat): nat {
    (119 - len % 64) % 64
  }

  function ZeroBytes(n: nat): (s: seq<bv8>)
    ensures |s| == n && forall i :: 0 <= i < n ==> s[i] == 0
  {
    seq(n, i => 0)
  }

  /** The message with its padding and a count of bits. */
  function Padded(m: seq<bv8>, count: nat): (p: seq<bv8>)
    ensures |p| % 64 == 0 && |p| == |m| + 1 + ZeroCount(|m|) + 8
  {
    m + [0x80] + ZeroBytes(ZeroCount(|m|)) + CountBytes(count)
  }

  /** The digest of a message that is given a count of bits. */
  function DigestWith(m: seq<bv8>, count: nat): (d: seq<bv8>)
    ensures |d| == 16
  {
    var p := Padded(m, count);
    DigestOf(Blocks(p, |p| / 64))
  }

  /** MD5: the count is the length of the message in bits, modulo 2^64. */
  function Digest(m: seq<bv8>): (d: seq<bv8>)
    ensures |d| == 16
  {
    DigestWith(m, 8 * |m| % 0x1_0000_0000_0000_0000)
  }

  lemma {:induction false} BlocksPrefix(a: seq<bv8>, b: seq<bv8>, n: nat)
    requires 64 * n <= |a| && 64 * n <= |b| && a[..64 * n] == b[..64 * n]
    ensures Blocks(a, n) == Blocks(b, n)
  {
    hide Compress;
    if n > 0 {
      var k := 64 * n;
      assert a[..k - 64] == a[..k][..k - 64] == b[..k][..k - 64] == b[..k - 64];
      assert a[k - 64..k] == a[..k][k - 64..] == b[..k][k - 64..] == b[k - 64..k];
      BlocksPrefix(a, b, n - 1);
    }
  }
}

/** The incremental form of md5c.c. */
module Md5 {
  import opened Rfc1321

  // ----- MD5Transform

  /** The macros F1 to F4. */
  function Fast(round: nat, x: bv32, y: bv32, z: bv32): bv32 {
    match round
    case 0 => z ^ (x & (y ^ z))
    case 1 => y ^ (z & (x ^ y))
    case 2 => x ^ y ^ z
    case _ => y ^ (x | (!z))
  }

  /** MD5STEP: the new value of w. */
  function Md5Step(round: nat, w: bv32, x: bv32, y: bv32, z: bv32, data: bv32, s: bv32): bv32
    requires 1 <= s <= 31
  {
    Plus(RotL(Plus(w, Plus(Fast(round, x, y, z), data)), s), x)
  }

  lemma FastF(x: bv32, y: bv32, z: bv32)
    ensures z ^ (x & (y ^ z)) == (x & y) | ((!x) & z)
  {
  }

  lemma FastG(x: bv32, y: bv32, z: bv32)
    ensures y ^ (z & (x ^ y)) == (x & z) | (y & (!z))
  {
  }

  lemma FastIsAux(round: nat, x: bv32, y: bv32, z: bv32)
    ensures Fast(round, x, y, z) == Aux(round, x, y, z)
  {
    FastF(x, y, z);
    FastG(x, y, z);
  }

  lemma PlusCommutes(a: bv32, b: bv32)
    ensures Plus(a, b) == Plus(b, a)
  {
  }

  /** A step of the macro is an operation of the standard. */
  lemma NextStep(i: nat, q: Quad, words: seq<bv32>, a: bv32, b: bv32, c: bv32, d: bv32, k: nat, t: bv32, s: bv32)
    requires |words| == 16 && i < 64 && Steps(i, q, words) == Quad(a, b, c, d)
    requires k == WordIndex(i) && t == Sine(i) && s == Amount(i)
    ensures Steps(i + 1, q, words) == Quad(d, Md5Step(i / 16, a, b, c, d, Plus(words[k], t), s), b, c)
  {
    hide Plus, RotL, Fast, Aux, Sine, Amount, WordIndex;
    FastIsAux(i / 16, b, c, d);
    var f := Aux(i / 16, b, c, d);
    PlusCommutes(b, RotL(Plus(a, Plus(f, Plus(words[k], t))), s));
  }

  lemma IndicesOne()
    ensures WordIndex(0) == 0 && WordIndex(1) == 1 && WordIndex(2) == 2 && WordIndex(3) == 3
    ensures WordIndex(4) == 4 && WordIndex(5) == 5 && WordIndex(6) == 6 && WordIndex(7) == 7
    ensures WordIndex(8) == 8 && WordIndex(9) == 9 && WordIndex(10) == 10 && WordIndex(11) == 11
    ensures WordIndex(12) == 12 && WordIndex(13) == 13 && WordIndex(14) == 14 && WordIndex(15) == 15
  {
  }

  lemma SinesOne()
    ensures Sine(0) == 0xd76aa478 && Sine(1) == 0xe8c7b756 && Sine(2) == 0x242070db && Sine(3) == 0xc1bdceee
    ensures Sine(4) == 0xf57c0faf && Sine(5) == 0x4787c62a && Sine(6) == 0xa8304613 && Sine(7) == 0xfd469501
    ensures Sine(8) == 0x698098d8 && Sine(9) == 0x8b44f7af && Sine(10) == 0xffff5bb1 && Sine(11) == 0x895cd7be
    ensures Sine(12) == 0x6b901122 && Sine(13) == 0xfd987193 && Sine(14) == 0xa679438e && Sine(15) == 0x49b40821
  {
  }

  lemma AmountsOne()
    ensures Amount(0) == 7 && Amount(1) == 12 && Amount(2) == 17 && Amount(3) == 22
    ensures Amount(4) == 7 && Amount(5) == 12 && Amount(6) == 17 && Amount(7) == 22
    ensures Amount(8) == 7 && Amount(9) == 12 && Amount(10) == 17 && Amount(11) == 22
    ensures Amount(12) == 7 && Amount(13) == 12 && Amount(14) == 17 && Amount(15) == 22
  {
  }

  /** Steps 0 to 15 of MD5Transform. */
  method RoundOne(ghost q: Quad, words: seq<bv32>, q0: Quad) returns (q': Quad)
    requires |words| == 16 && q0 == Steps(0, q, words)
    ensures q' == Steps(16, q, words)
  {
    hide Md5Step, Plus, Steps, WordIndex, Sine, Amount;
    IndicesOne();
    SinesOne();
    AmountsOne();
    var a, b, c, d := q0.a, q0.b, q0.c, q0.d;
    NextStep(0, q, words, a, b, c, d, 0, 0xd76aa478, 7);
    a := Md5Step(0, a, b, c, d, Plus(words[0], 0xd76aa478), 7);
    NextStep(1, q, words, d, a, b, c, 1, 0xe8c7b756, 12);
    d := Md5Step(0, d, a, b, c, Plus(words[1], 0xe8c7b756), 12);
    NextStep(2, q, words, c, d, a, b, 2, 0x242070db, 17);
    c := Md5Step(0, c, d, a, b, Plus(words[2], 0x242070db), 17);
    NextStep(3, q, words, b, c, d, a, 3, 0xc1bdceee, 22);
    b := Md5Step(0, b, c, d, a, Plus(words[3], 0xc1bdceee), 22);
    NextStep(4, q, words, a, b, c, d, 4, 0xf57c0faf, 7);
    a := Md5Step(0, a, b, c, d, Plus(words[4], 0xf57c0faf), 7);
    NextStep(5, q, words, d, a, b, c, 5, 0x4787c62a, 12);
    d := Md5Step(0, d, a, b, c, Plus(words[5], 0x4787c62a), 12);
    NextStep(6, q, words, c, d, a, b, 6, 0xa8304613, 17);
    c := Md5Step(0, c, d, a, b, Plus(words[6], 0xa8304613), 17);
    NextStep(7, q, words, b, c, d, a, 7, 0xfd469501, 22);
    b := Md5Step(0, b, c, d, a, Plus(words[7], 0xfd469501), 22);
    NextStep(8, q, words, a, b, c, d, 8, 0x698098d8, 7);
    a := Md5Step(0, a, b, c, d, Plus(words[8], 0x698098d8), 7);
    NextStep(9, q, words, d, a, b, c, 9, 0x8b44f7af, 12);
    d := Md5Step(0, d, a, b, c, Plus(words[9], 0x8b44f7af), 12);
    NextStep(10, q, words, c, d, a, b, 10, 0xffff5bb1, 17);
    c := Md5Step(0, c, d, a, b, Plus(words[10], 0xffff5bb1), 17);
    NextStep(11, q, words, b, c, d, a, 11, 0x895cd7be, 22);
    b := Md5Step(0, b, c, d, a, Plus(words[11], 0x895cd7be), 22);
    NextStep(12, q, words, a, b, c, d, 12, 0x6b901122, 7);
    a := Md5Step(0, a, b, c, d, Plus(words[12], 0x6b901122), 7);
    NextStep(13, q, words, d, a, b, c, 13, 0xfd987193, 12);
    d := Md5Step(0, d, a, b, c, Plus(words[13], 0xfd987193), 12);
    NextStep(14, q, words, c, d, a, b, 14, 0xa679438e, 17);
    c := Md5Step(0, c, d, a, b, Plus(words[14], 0xa679438e), 17);
    NextStep(15, q, words, b, c, d, a, 15, 0x49b40821, 22);
    b := Md5Step(0, b, c, d, a, Plus(words[15], 0x49b40821), 22);
    q' := Quad(a, b, c, d);
  }

  lemma IndicesTwo()
    ensures WordIndex(16) == 1 && WordIndex(17) == 6 && WordIndex(18) == 11 && WordIndex(19) == 0
    ensures WordIndex(20) == 5 && WordIndex(21) == 10 && WordIndex(22) == 15 && WordIndex(23) == 4
    ensures WordIndex(24) == 9 && WordIndex(25) == 14 && WordIndex(26) == 3 && WordIndex(27) == 8
    ensures WordIndex(28) == 13 && WordIndex(29) == 2 && WordIndex(30) == 7 && WordIndex(31) == 12
  {
  }

  lemma SinesTwo()
    ensures Sine(16) == 0xf61e2562 && Sine(17) == 0xc040b340 && Sine(18) == 0x265e5a51 && Sine(19) == 0xe9b6c7aa
    ensures Sine(20) == 0xd62f105d && Sine(21) == 0x02441453 && Sine(22) == 0xd8a1e681 && Sine(23) == 0xe7d3fbc8
    ensures Sine(24) == 0x21e1cde6 && Sine(25) == 0xc33707d6 && Sine(26) == 0xf4d50d87 && Sine(27) == 0x455a14ed
    ensures Sine(28) == 0xa9e3e905 && Sine(29) == 0xfcefa3f8 && Sine(30) == 0x676f02d9 && Sine(31) == 0x8d2a4c8a
  {
  }

  lemma AmountsTwo()
    ensures Amount(16) == 5 && Amount(17) == 9 && Amount(18) == 14 && Amount(19) == 20
    ensures Amount(20) == 5 && Amount(21) == 9 && Amount(22) == 14 && Amount(23) == 20
    ensures Amount(24) == 5 && Amount(25) == 9 && Amount(26) == 14 && Amount(27) == 20
    ensures Amount(28) == 5 && Amount(29) == 9 && Amount(30) == 14 && Amount(31) == 20
  {
  }

  /** Steps 16 to 31 of MD5Transform. */
  method RoundTwo(ghost q: Quad, words: seq<bv32>, q0: Quad) returns (q': Quad)
    requires |words| == 16 && q0 == Steps(16, q, words)
    ensures q' == Steps(32, q, words)
  {
    hide Md5Step, Plus, Steps, WordIndex, Sine, Amount;
    IndicesTwo();
    SinesTwo();
    AmountsTwo();
    var a, b, c, d := q0.a, q0.b, q0.c, q0.d;
    NextStep(16, q, words, a, b, c, d, 1, 0xf61e2562, 5);
    a := Md5Step(1, a, b, c, d, Plus(words[1], 0xf61e2562), 5);
    NextStep(17, q, words, d, a, b, c, 6, 0xc040b340, 9);
    d := Md5Step(1, d, a, b, c, Plus(words[6], 0xc040b340), 9);
    NextStep(18, q, words, c, d, a, b, 11, 0x265e5a51, 14);
    c := Md5Step(1, c, d, a, b, Plus(words[11], 0x265e5a51), 14);
    NextStep(19, q, words, b, c, d, a, 0, 0xe9b6c7aa, 20);
    b := Md5Step(1, b, c, d, a, Plus(words[0], 0xe9b6c7aa), 20);
    NextStep(20, q, words, a, b, c, d, 5, 0xd62f105d, 5);
    a := Md5Step(1, a, b, c, d, Plus(words[5], 0xd62f105d), 5);
    NextStep(21, q, words, d, a, b, c, 10, 0x02441453, 9);
    d := Md5Step(1, d, a, b, c, Plus(words[10], 0x02441453), 9);
    NextStep(22, q, words, c, d, a, b, 15, 0xd8a1e681, 14);
    c := Md5Step(1, c, d, a, b, Plus(words[15], 0xd8a1e681), 14);
    NextStep(23, q, words, b, c, d, a, 4, 0xe7d3fbc8, 20);
    b := Md5Step(1, b, c, d, a, Plus(words[4], 0xe7d3fbc8), 20);
    NextStep(24, q, words, a, b, c, d, 9, 0x21e1cde6, 5);
    a := Md5Step(1, a, b, c, d, Plus(words[9], 0x21e1cde6), 5);
    NextStep(25, q, words, d, a, b, c, 14, 0xc33707d6, 9);
    d := Md5Step(1, d, a, b, c, Plus(words[14], 0xc33707d6), 9);
    NextStep(26, q, words, c, d, a, b, 3, 0xf4d50d87, 14);
    c := Md5Step(1, c, d, a, b, Plus(words[3], 0xf4d50d87), 14);
    NextStep(27, q, words, b, c, d, a, 8, 0x455a14ed, 20);
    b := Md5Step(1, b, c, d, a, Plus(words[8], 0x455a14ed), 20);
    NextStep(28, q, words, a, b, c, d, 13, 0xa9e3e905, 5);
    a := Md5Step(1, a, b, c, d, Plus(words[13], 0xa9e3e905), 5);
    NextStep(29, q, words, d, a, b, c, 2, 0xfcefa3f8, 9);
    d := Md5Step(1, d, a, b, c, Plus(words[2], 0xfcefa3f8), 9);
    NextStep(30, q, words, c, d, a, b, 7, 0x676f02d9, 14);
    c := Md5Step(1, c, d, a, b, Plus(words[7], 0x676f02d9), 14);
    NextStep(31, q, words, b, c, d, a, 12, 0x8d2a4c8a, 20);
    b := Md5Step(1, b, c, d, a, Plus(words[12], 0x8d2a4c8a), 20);
    q' := Quad(a, b, c, d);
  }

  lemma IndicesThree()
    ensures WordIndex(32) == 5 && WordIndex(33) == 8 && WordIndex(34) == 11 && WordIndex(35) == 14
    ensures WordIndex(36) == 1 && WordIndex(37) == 4 && WordIndex(38) == 7 && WordIndex(39) == 10
    ensures WordIndex(40) == 13 && WordIndex(41) == 0 && WordIndex(42) == 3 && WordIndex(43) == 6
    ensures WordIndex(44) == 9 && WordIndex(45) == 12 && WordIndex(46) == 15 && WordIndex(47) == 2
  {
  }

  lemma SinesThree()
    ensures Sine(32) == 0xfffa3942 && Sine(33) == 0x8771f681 && Sine(34) == 0x6d9d6122 && Sine(35) == 0xfde5380c
    ensures Sine(36) == 0xa4beea44 && Sine(37) == 0x4bdecfa9 && Sine(38) == 0xf6bb4b60 && Sine(39) == 0xbebfbc70
    ensures Sine(40) == 0x289b7ec6 && Sine(41) == 0xeaa127fa && Sine(42) == 0xd4ef3085 && Sine(43) == 0x04881d05
    ensures Sine(44) == 0xd9d4d039 && Sine(45) == 0xe6db99e5 && Sine(46) == 0x1fa27cf8 && Sine(47) == 0xc4ac5665
  {
  }

  lemma AmountsThree()
    ensures Amount(32) == 4 && Amount(33) == 11 && Amount(34) == 16 && Amount(35) == 23
    ensures Amount(36) == 4 && Amount(37) == 11 && Amount(38) == 16 && Amount(39) == 23
    ensures Amount(40) == 4 && Amount(41) == 11 && Amount(42) == 16 && Amount(43) == 23
    ensures Amount(44) == 4 && Amount(45) == 11 && Amount(46) == 16 && Amount(47) == 23
  {
  }

  /** Steps 32 to 47 of MD5Transform. */
  method RoundThree(ghost q: Quad, words: seq<bv32>, q0: Quad) returns (q': Quad)
    requires |words| == 16 && q0 == Steps(32, q, words)
    ensures q' == Steps(48, q, words)
  {
    hide Md5Step, Plus, Steps, WordIndex, Sine, Amount;
    IndicesThree();
    SinesThree();
    AmountsThree();
    var a, b, c, d := q0.a, q0.b, q0.c, q0.d;
    NextStep(32, q, words, a, b, c, d, 5, 0xfffa3942, 4);
    a := Md5Step(2, a, b, c, d, Plus(words[5], 0xfffa3942), 4);
    NextStep(33, q, words, d, a, b, c, 8, 0x8771f681, 11);
    d := Md5Step(2, d, a, b, c, Plus(words[8], 0x8771f681), 11);
    NextStep(34, q, words, c, d, a, b, 11, 0x6d9d6122, 16);
    c := Md5Step(2, c, d, a, b, Plus(words[11], 0x6d9d6122), 16);
    NextStep(35, q, words, b, c, d, a, 14, 0xfde5380c, 23);
    b := Md5Step(2, b, c, d, a, Plus(words[14], 0xfde5380c), 23);
    NextStep(36, q, words, a, b, c, d, 1, 0xa4beea44, 4);
    a := Md5Step(2, a, b, c, d, Plus(words[1], 0xa4beea44), 4);
    NextStep(37, q, words, d, a, b, c, 4, 0x4bdecfa9, 11);
    d := Md5Step(2, d, a, b, c, Plus(words[4], 0x4bdecfa9), 11);
    NextStep(38, q, words, c, d, a, b, 7, 0xf6bb4b60, 16);
    c := Md5Step(2, c, d, a, b, Plus(words[7], 0xf6bb4b60), 16);
    NextStep(39, q, words, b, c, d, a, 10, 0xbebfbc70, 23);
    b := Md5Step(2, b, c, d, a, Plus(words[10], 0xbebfbc70), 23);
    NextStep(40, q, words, a, b, c, d, 13, 0x289b7ec6, 4);
    a := Md5Step(2, a, b, c, d, Plus(words[13], 0x289b7ec6), 4);
    NextStep(41, q, words, d, a, b, c, 0, 0xeaa127fa, 11);
    d := Md5Step(2, d, a, b, c, Plus(words[0], 0xeaa127fa), 11);
    NextStep(42, q, words, c, d, a, b, 3, 0xd4ef3085, 16);
    c := Md5Step(2, c, d, a, b, Plus(words[3], 0xd4ef3085), 16);
    NextStep(43, q, words, b, c, d, a, 6, 0x04881d05, 23);
    b := Md5Step(2, b, c, d, a, Plus(words[6], 0x04881d05), 23);
    NextStep(44, q, words, a, b, c, d, 9, 0xd9d4d039, 4);
    a := Md5Step(2, a, b, c, d, Plus(words[9], 0xd9d4d039), 4);
    NextStep(45, q, words, d, a, b, c, 12, 0xe6db99e5, 11);
    d := Md5Step(2, d, a, b, c, Plus(words[12], 0xe6db99e5), 11);
    NextStep(46, q, words, c, d, a, b, 15, 0x1fa27cf8, 16);
    c := Md5Step(2, c, d, a, b, Plus(words[15], 0x1fa27cf8), 16);
    NextStep(47, q, words, b, c, d, a, 2, 0xc4ac5665, 23);
    b := Md5Step(2, b, c, d, a, Plus(words[2], 0xc4ac5665), 23);
    q' := Quad(a, b, c, d);
  }

  lemma IndicesFour()
    ensures WordIndex(48) == 0 && WordIndex(49) == 7 && WordIndex(50) == 14 && WordIndex(51) == 5
    ensures WordIndex(52) == 12 && WordIndex(53) == 3 && WordIndex(54) == 10 && WordIndex(55) == 1
    ensures WordIndex(56) == 8 && WordIndex(57) == 15 && WordIndex(58) == 6 && WordIndex(59) == 13
    ensures WordIndex(60) == 4 && WordIndex(61) == 11 && WordIndex(62) == 2 && WordIndex(63) == 9
  {
  }

  lemma SinesFour()
    ensures Sine(48) == 0xf4292244 && Sine(49) == 0x432aff97 && Sine(50) == 0xab9423a7 && Sine(51) == 0xfc93a039
    ensures Sine(52) == 0x655b59c3 && Sine(53) == 0x8f0ccc92 && Sine(54) == 0xffeff47d && Sine(55) == 0x85845dd1
    ensures Sine(56) == 0x6fa87e4f && Sine(57) == 0xfe2ce6e0 && Sine(58) == 0xa3014314 && Sine(59) == 0x4e0811a1
    ensures Sine(60) == 0xf7537e82 && Sine(61) == 0xbd3af235 && Sine(62) == 0x2ad7d2bb && Sine(63) == 0xeb86d391
  {
  }

  lemma AmountsFour()
    ensures Amount(48) == 6 && Amount(49) == 10 && Amount(50) == 15 && Amount(51) == 21
    ensures Amount(52) == 6 && Amount(53) == 10 && Amount(54) == 15 && Amount(55) == 21
    ensures Amount(56) == 6 && Amount(57) == 10 && Amount(58) == 15 && Amount(59) == 21
    ensures Amount(60) == 6 && Amount(61) == 10 && Amount(62) == 15 && Amount(63) == 21
  {
  }

  /** Steps 48 to 63 of MD5Transform. */
  method RoundFour(ghost q: Quad, words: seq<bv32>, q0: Quad) returns (q': Quad)
    requires |words| == 16 && q0 == Steps(48, q, words)
    ensures q' == Steps(64, q, words)
  {
    hide Md5Step, Plus, Steps, WordIndex, Sine, Amount;
    IndicesFour();
    SinesFour();
    AmountsFour();
    var a, b, c, d := q0.a, q0.b, q0.c, q0.d;
    NextStep(48, q, words, a, b, c, d, 0, 0xf4292244, 6);
    a := Md5Step(3, a, b, c, d, Plus(words[0], 0xf4292244), 6);
    NextStep(49, q, words, d, a, b, c, 7, 0x432aff97, 10);
    d := Md5Step(3, d, a, b, c, Plus(words[7], 0x432aff97), 10);
    NextStep(50, q, words, c, d, a, b, 14, 0xab9423a7, 15);
    c := Md5Step(3, c, d, a, b, Plus(words[14], 0xab9423a7), 15);
    NextStep(51, q, words, b, c, d, a, 5, 0xfc93a039, 21);
    b := Md5Step(3, b, c, d, a, Plus(words[5], 0xfc93a039), 21);
    NextStep(52, q, words, a, b, c, d, 12, 0x655b59c3, 6);
    a := Md5Step(3, a, b, c, d, Plus(words[12], 0x655b59c3), 6);
    NextStep(53, q, words, d, a, b, c, 3, 0x8f0ccc92, 10);
    d := Md5Step(3, d, a, b, c, Plus(words[3], 0x8f0ccc92), 10);
    NextStep(54, q, words, c, d, a, b, 10, 0xffeff47d, 15);
    c := Md5Step(3, c, d, a, b, Plus(words[10], 0xffeff47d), 15);
    NextStep(55, q, words, b, c, d, a, 1, 0x85845dd1, 21);
    b := Md5Step(3, b, c, d, a, Plus(words[1], 0x85845dd1), 21);
    NextStep(56, q, words, a, b, c, d, 8, 0x6fa87e4f, 6);
    a := Md5Step(3, a, b, c, d, Plus(words[8], 0x6fa87e4f), 6);
    NextStep(57, q, words, d, a, b, c, 15, 0xfe2ce6e0, 10);
    d := Md5Step(3, d, a, b, c, Plus(words[15], 0xfe2ce6e0), 10);
    NextStep(58, q, words, c, d, a, b, 6, 0xa3014314, 15);
    c := Md5Step(3, c, d, a, b, Plus(words[6], 0xa3014314), 15);
    NextStep(59, q, words, b, c, d, a, 13, 0x4e0811a1, 21);
    b := Md5Step(3, b, c, d, a, Plus(words[13], 0x4e0811a1), 21);
    NextStep(60, q, words, a, b, c, d, 4, 0xf7537e82, 6);
    a := Md5Step(3, a, b, c, d, Plus(words[4], 0xf7537e82), 6);
    NextStep(61, q, words, d, a, b, c, 11, 0xbd3af235, 10);
    d := Md5Step(3, d, a, b, c, Plus(words[11], 0xbd3af235), 10);
    NextStep(62, q, words, c, d, a, b, 2, 0x2ad7d2bb, 15);
    c := Md5Step(3, c, d, a, b, Plus(words[2], 0x2ad7d2bb), 15);
    NextStep(63, q, words, b, c, d, a, 9, 0xeb86d391, 21);
    b := Md5Step(3, b, c, d, a, Plus(words[9], 0xeb86d391), 21);
    q' := Quad(a, b, c, d);
  }

  // ----- counting bits in two 32-bit words

  const TWO29 := 0x2000_0000
  const TWO32 := 0x1_0000_0000
  const TWO64 := 0x1_0000_0000_0000_0000

  /** The overflow test of MD5Update, which compares with the length where the bits added are meant. */
  predicate CarryRight(c0: nat, len: nat) {
    var added := c0 + 8 * len % TWO32;
    added >= TWO32 <==> added % TWO32 < len
  }

  lemma QuotientIs(n: nat, q: nat)
    ensures n / TWO32 == q <==> TWO32 * q <= n < TWO32 * (q + 1)
  {
  }

  /** The test is right iff the low word and 7 times the length overflow as often as 8 times the length does; for a
      piece of less than 2^29 bytes, iff they do not overflow. */
  lemma CarryRightIff(c0: nat, len: nat)
    requires c0 < TWO32 && len < TWO32
    ensures CarryRight(c0, len) <==> (c0 + 7 * len) / TWO32 == len / TWO29
    ensures len < TWO29 ==> (CarryRight(c0, len) <==> c0 + 7 * len < TWO32)
  {
    var l3, q := 8 * len % TWO32, len / TWO29;
    assert 8 * len == TWO32 * q + l3;
    assert CarryRight(c0, len) <==> len <= c0 + l3 < TWO32 + len;
    assert CarryRight(c0, len) <==> TWO32 * q <= c0 + 7 * len < TWO32 * (q + 1);
    QuotientIs(c0 + 7 * len, q);
  }

  /** A carry that is lost: the second of two pieces of 2^29 - 1 bytes. */
  lemma CarryLost()
    ensures !CarryRight(8 * (TWO29 - 1), TWO29 - 1)
  {
  }

  /** The new value of the two words. */
  function CountAfter(c0: nat, c1: nat, len: nat): (nat, nat) {
    var n0 := (c0 + 8 * len % TWO32) % TWO32;
    var carried := if n0 < len % TWO32 then (c1 + 1) % TWO32 else c1;
    (n0, (carried + len % TWO32 / TWO29) % TWO32)
  }

  lemma LengthParts(len: nat) returns (l3: nat, hi: nat)
    requires len < TWO32
    ensures l3 == 8 * len % TWO32 && hi == len % TWO32 / TWO29 && 8 * len == TWO32 * hi + l3 && len % TWO32 == len
  {
    l3, hi := 8 * len % TWO32, len / TWO29;
  }

  lemma HighWord(c1: nat, k: nat, carry: nat, hi: nat)
    requires c1 < TWO32 && k <= 1 && carry <= 1
    ensures var carried := if k == 1 then (c1 + 1) % TWO32 else c1;
      (carried + hi) % TWO32 == (c1 + carry + hi) % TWO32 <==> k == carry
  {
    var carried := if k == 1 then (c1 + 1) % TWO32 else c1;
    assert (carried + hi) % TWO32 == (c1 + k + hi) % TWO32;
  }

  lemma WordsAdd(c: nat, x: nat, y: nat, n0: nat, n1: nat)
    requires c == x % TWO64 && n0 < TWO32 && c + y == n0 + TWO32 * n1
    ensures (x + y) % TWO64 == n0 + TWO32 * (n1 % TWO32)
  {
    var q := n1 / TWO32;
    assert x + y == TWO64 * (x / TWO64 + q) + (n0 + TWO32 * (n1 % TWO32));
  }

  /** Two words that hold the length of a message in bits go on holding it iff the overflow test is right. */
  lemma CountExactIff(c0: nat, c1: nat, n: nat, len: nat)
    requires c0 < TWO32 && c1 < TWO32 && len < TWO32 && c0 + TWO32 * c1 == 8 * n % TWO64
    ensures var (n0, n1) := CountAfter(c0, c1, len);
      n0 + TWO32 * n1 == 8 * (n + len) % TWO64 <==> CarryRight(c0, len)
  {
    var l3, hi := LengthParts(len);
    var added := c0 + l3;
    var carry := if added >= TWO32 then 1 else 0;
    var k := if added % TWO32 < len then 1 else 0;
    var n0 := added - TWO32 * carry;
    WordsAdd(c0 + TWO32 * c1, 8 * n, 8 * len, n0, c1 + carry + hi);
    HighWord(c1, k, carry, hi);
  }

  lemma LowCount(c0: nat, n: nat, len: nat)
    requires c0 == 8 * n % TWO32
    ensures (c0 + 8 * len % TWO32) % TWO32 == 8 * (n + len) % TWO32
  {
  }

  // ----- the context

  /** The constant PADDING. */
  function Padding(): (s: seq<bv8>)
    ensures |s| == 64
  {
    [0x80] + ZeroBytes(63)
  }

  lemma PadLength(n: nat, padLen: nat)
    requires padLen == (if 64 - n % 64 < 9 then 128 - n % 64 else 64 - n % 64)
    ensures padLen - 8 == 1 + ZeroCount(n) <= 64
  {
  }

  lemma PaddedIs(m: seq<bv8>, padLen: nat, count: nat)
    requires padLen - 8 == 1 + ZeroCount(|m|) <= 64
    ensures m + Padding()[..padLen - 8] + CountBytes(count) == Padded(m, count)
  {
    hide CountBytes, ZeroCount;
    assert Padding()[..padLen - 8] == [0x80] + ZeroBytes(ZeroCount(|m|));
    assert m + ([0x80] + ZeroBytes(ZeroCount(|m|))) == m + [0x80] + ZeroBytes(ZeroCount(|m|));
  }

  lemma ModSame(y: nat, k: nat)
    ensures (y + 0x100 * k) % 0x100 == y % 0x100
  {
  }

  lemma SameByte(x: nat, y: nat, k: nat)
    requires x == y + 0x100 * k
    ensures ByteOf(x) == ByteOf(y)
  {
    hide Narrow;
    ModSame(y, k);
  }

  lemma LowBytes(c0: nat, c1: nat)
    requires c0 < TWO32
    ensures var n := c0 + TWO32 * c1;
      ByteOf(n) == ByteOf(c0) && ByteOf(n / 0x100) == ByteOf(c0 / 0x100)
      && ByteOf(n / 0x1_0000) == ByteOf(c0 / 0x1_0000) && ByteOf(n / 0x100_0000) == ByteOf(c0 / 0x100_0000)
  {
    hide ByteOf;
    var n := c0 + TWO32 * c1;
    SameByte(n, c0, 0x100_0000 * c1);
    SameByte(n / 0x100, c0 / 0x100, 0x1_0000 * c1);
    SameByte(n / 0x1_0000, c0 / 0x1_0000, 0x100 * c1);
    SameByte(n / 0x100_0000, c0 / 0x100_0000, c1);
  }

  lemma HighPart(c0: nat, c1: nat)
    requires c0 < TWO32
    ensures var n := c0 + TWO32 * c1;
      n / 0x1_0000_0000 == c1 && n / 0x100_0000_0000 == c1 / 0x100 && n / 0x1_0000_0000_0000 == c1 / 0x1_0000
      && n / 0x100_0000_0000_0000 == c1 / 0x100_0000
  {
  }

  lemma FirstBlock(m: seq<bv8>, input: seq<bv8>, have: nat)
    requires have == |m| % 64 && |input| >= 64 - have
    ensures var n := |m| / 64;
      m[|m| - have..] + input[..64 - have] == (m + input)[64 * n..64 * n + 64]
  {
  }

  lemma TailOf(m: seq<bv8>, input: seq<bv8>, p: nat)
    requires p <= |input|
    ensures (m + input)[|m| + p..] == input[p..]
  {
  }

  lemma SameBlocks(m: seq<bv8>, input: seq<bv8>)
    ensures Blocks(m + input, |m| / 64) == Blocks(m, |m| / 64)
  {
    hide Blocks;
    BlocksPrefix(m, m + input, |m| / 64);
  }

  lemma NoSteps(q: Quad, words: seq<bv32>)
    requires |words| == 16
    ensures Steps(0, q, words) == q
  {
  }

  lemma NextBlock(s: seq<bv8>, n: nat)
    requires 64 * n + 64 <= |s|
    ensures Blocks(s, n + 1) == Compress(Blocks(s, n), s[64 * n..64 * n + 64])
  {
  }

  /** Bits 3 to 8 of the count are the number of buffered bytes. */
  lemma Have(c0: nat, n: nat)
    requires c0 == 8 * n % TWO32
    ensures c0 / 8 % 64 == n % 64
  {
    var q := 8 * n / TWO32;
    assert 8 * n == TWO32 * q + c0;
    assert n == TWO29 * q + c0 / 8;
  }

  lemma WholeBlocks(n: nat, len: nat)
    requires n % 64 == 0 && n <= len < n + 64
    ensures len / 64 == n / 64 && len % 64 == len - n
  {
  }

  lemma Unfilled(n: nat, len: nat)
    requires len < 64 - n % 64
    ensures (n + len) / 64 == n / 64 && (n + len) % 64 == n % 64 + len
  {
  }

  /** The digest is the one of the standard when the context holds the true bit count. */
  lemma DigestWithTrueCount(m: seq<bv8>, count: nat)
    requires count == 8 * |m| % TWO64
    ensures DigestWith(m, count) == Digest(m)
  {
  }

  /** Below 2^29 bytes in all, no carry is lost. */
  lemma CountStays(c0: nat, c1: nat, n: nat, len: nat)
    requires c0 < TWO32 && c1 < TWO32 && c0 + TWO32 * c1 == 8 * n % TWO64 && n + len < TWO29
    ensures var (n0, n1) := CountAfter(c0, c1, len);
      n0 < TWO32 && n1 < TWO32 && n0 + TWO32 * n1 == 8 * (n + len) % TWO64
  {
    CountExactIff(c0, c1, n, len);
    CarryRightIff(c0, len);
  }

  class Context {
    const state: array<bv32>
    var count0: nat
    var count1: nat
    const buffer: array<bv8>

    constructor ()
      ensures Allocated() && fresh(state) && fresh(buffer)
    {
      state, buffer := new bv32[4], new bv8[64];
      count0, count1 := 0, 0;
    }

    ghost predicate Allocated() {
      state.Length == 4 && buffer.Length == 64
    }

    ghost function Registers(): Quad
      requires Allocated()
      reads state
    {
      Quad(state[0], state[1], state[2], state[3])
    }

    /** The context after the message m, however it came in: its whole blocks are compressed, the rest waits in
        the buffer. */
    ghost predicate Holds(m: seq<bv8>)
      reads this, state, buffer
    {
      && Allocated() && count0 == 8 * |m| % TWO32 && count1 < TWO32
      && Registers() == Blocks(m, |m| / 64)
      && buffer[..|m| % 64] == m[|m| - |m| % 64..]
    }

    /** The two words hold the length of the message in bits. */
    ghost predicate CountIs(n: nat)
      reads this
    {
      count0 < TWO32 && count1 < TWO32 && count0 + TWO32 * count1 == 8 * n % TWO64
    }

    /** MD5Init. */
    method Init()
      requires Allocated()
      modifies this, state
      ensures Holds([]) && CountIs(0) && count0 == count1 == 0
    {
      count0, count1 := 0, 0;
      state[0], state[1], state[2], state[3] := 0x67452301, 0xefcdab89, 0x98badcfe, 0x10325476;
    }

    /** MD5Transform. */
    method Transform(block: seq<bv8>)
      requires Allocated() && |block| == 64
      modifies state
      ensures Registers() == Compress(old(Registers()), block)
    {
      hide WordOf, Steps, Plus;
      var words := [];
      for i := 0 to 16
        invariant words == Words(block, i)
      {
        words := words + [WordOf(block[4 * i], block[4 * i + 1], block[4 * i + 2], block[4 * i + 3])];
      }
      ghost var q := Registers();
      NoSteps(q, words);
      var r := RoundOne(q, words, Quad(state[0], state[1], state[2], state[3]));
      r := RoundTwo(q, words, r);
      r := RoundThree(q, words, r);
      r := RoundFour(q, words, r);
      state[0] := Plus(state[0], r.a);
      state[1] := Plus(state[1], r.b);
      state[2] := Plus(state[2], r.c);
      state[3] := Plus(state[3], r.d);
    }

    /** The first part of MD5Update: the bit count, with its overflow test. */
    method UpdateCount(len: nat)
      requires count0 < TWO32 && count1 < TWO32
      modifies this`count0, this`count1
      ensures (count0, count1) == CountAfter(old(count0), old(count1), len)
    {
      count0 := (count0 + 8 * len % TWO32) % TWO32;
      if count0 < len % TWO32 {
        count1 := (count1 + 1) % TWO32;
      }
      count1 := (count1 + len % TWO32 / TWO29) % TWO32;
    }

    /** memcpy into the buffer. */
    method Copy(at: nat, bytes: seq<bv8>)
      requires Allocated() && at + |bytes| <= 64
      modifies buffer
      ensures buffer[..at + |bytes|] == old(buffer[..at]) + bytes
    {
      forall k | 0 <= k < |bytes| {
        buffer[at + k] := bytes[k];
      }
    }

    /** The part of MD5Update that completes the buffered block and compresses the whole blocks. */
    method Absorb(input: seq<bv8>, have: nat, ghost m: seq<bv8>) returns (p: nat)
      requires Allocated() && have == |m| % 64 && |input| >= 64 - have
      requires Registers() == Blocks(m, |m| / 64) && buffer[..have] == m[|m| - have..]
      modifies state, buffer
      ensures p <= |input| && (|m| + p) % 64 == 0 && |input| - p < 64
      ensures Registers() == Blocks(m + input, (|m| + p) / 64)
    {
      hide Blocks, Compress;
      ghost var t := m + input;
      p := 0;
      assert t[..64 * (|m| / 64)] == m[..64 * (|m| / 64)];
      BlocksPrefix(m, t, |m| / 64);
      if have != 0 {
        Copy(have, input[..64 - have]);
        FirstBlock(m, input, have);
        assert buffer[..] == buffer[..64];
        Transform(buffer[..]);
        NextBlock(t, |m| / 64);
        p := 64 - have;
      }
      while |input| - p >= 64
        invariant p <= |input| && (|m| + p) % 64 == 0 && Registers() == Blocks(t, (|m| + p) / 64)
      {
        assert input[p..p + 64] == t[|m| + p..|m| + p + 64];
        Transform(input[p..p + 64]);
        NextBlock(t, (|m| + p) / 64);
        p := p + 64;
      }
    }

    /** The input completes a block: whole blocks are compressed, and the rest waits at the start of the buffer. */
    method TakeBlocks(input: seq<bv8>, have: nat, ghost m: seq<bv8>)
      requires Allocated() && have == |m| % 64 && |input| >= 64 - have
      requires Registers() == Blocks(m, |m| / 64) && buffer[..have] == m[|m| - have..]
      modifies state, buffer
      ensures Registers() == Blocks(m + input, |m + input| / 64)
      ensures buffer[..|m + input| % 64] == (m + input)[|m + input| - |m + input| % 64..]
    {
      hide Blocks, Compress;
      var p := Absorb(input, have, m);
      WholeBlocks(|m| + p, |m + input|);
      if |input| - p != 0 {
        Copy(0, input[p..]);
      }
      TailOf(m, input, p);
    }

    /** The input does not complete a block: it is appended to the buffer. */
    method TakeTail(input: seq<bv8>, have: nat, ghost m: seq<bv8>)
      requires Allocated() && have == |m| % 64 && |input| < 64 - have
      requires Registers() == Blocks(m, |m| / 64) && buffer[..have] == m[|m| - have..]
      modifies state, buffer
      ensures Registers() == Blocks(m + input, |m + input| / 64)
      ensures buffer[..|m + input| % 64] == (m + input)[|m + input| - |m + input| % 64..]
    {
      hide Blocks, Compress;
      SameBlocks(m, input);
      Unfilled(|m|, |input|);
      if |input| != 0 {
        Copy(have, input);
      }
      assert m[|m| - have..] + input == (m + input)[|m| - have..];
    }

    /** MD5Update: the context holds the longer message. */
    method Update(input: seq<bv8>, ghost m: seq<bv8>)
      requires Holds(m)
      modifies this, state, buffer
      ensures Holds(m + input)
      ensures (count0, count1) == CountAfter(old(count0), old(count1), |input|)
    {
      hide Blocks, Compress;
      var have := count0 / 8 % 64;
      Have(count0, |m|);
      UpdateCount(|input|);
      LowCount(old(count0), |m|, |input|);
      if |input| >= 64 - have {
        TakeBlocks(input, have, m);
      } else {
        TakeTail(input, have, m);
      }
    }

    /** An update that keeps the count exact. */
    method UpdateCounted(input: seq<bv8>, ghost m: seq<bv8>)
      requires Holds(m) && CountIs(|m|) && |m| + |input| < TWO29
      modifies this, state, buffer
      ensures Holds(m + input) && CountIs(|m + input|)
    {
      hide Holds, CountAfter;
      CountStays(count0, count1, |m|, |input|);
      Update(input, m);
    }

    // ----- MD5Final

    /** PUT_64BIT_LE. */
    function CountLE(): (s: seq<bv8>)
      reads this
      ensures |s| == 8
    {
      [ByteOf(count0), ByteOf(count0 / 0x100), ByteOf(count0 / 0x1_0000), ByteOf(count0 / 0x100_0000),
       ByteOf(count1), ByteOf(count1 / 0x100), ByteOf(count1 / 0x1_0000), ByteOf(count1 / 0x100_0000)]
    }

    lemma CountLEIs()
      requires count0 < TWO32
      ensures CountLE() == CountBytes(count0 + TWO32 * count1)
    {
      hide ByteOf;
      LowBytes(count0, count1);
      HighPart(count0, count1);
    }

    /** MD5Final: the digest of the message with the count that the context holds. The context is wiped. */
    method Final(digest: array<bv8>, ghost m: seq<bv8>)
      requires Holds(m) && digest.Length == 16 && digest != buffer
      modifies this, state, buffer, digest
      ensures digest[..] == DigestWith(m, old(count0 + TWO32 * count1))
      ensures count0 == count1 == 0 && Registers() == Quad(0, 0, 0, 0) && forall k :: 0 <= k < 64 ==> buffer[k] == 0
    {
      hide Blocks, Compress, DigestOf, CountBytes, ZeroCount;
      ghost var total := count0 + TWO32 * count1;
      var count := CountLE();
      CountLEIs();
      var padLen := 64 - count0 / 8 % 64;
      Have(count0, |m|);
      if padLen < 1 + 8 {
        padLen := padLen + 64;
      }
      PadLength(|m|, padLen);
      Update(Padding()[..padLen - 8], m);
      Update(count, m + Padding()[..padLen - 8]);
      PaddedIs(m, padLen, total);
      PutDigest(digest);
      Wipe();
    }

    /** MD5Final on a context with the true count. */
    method FinalCounted(digest: array<bv8>, ghost m: seq<bv8>)
      requires Holds(m) && CountIs(|m|) && digest.Length == 16 && digest != buffer
      modifies this, state, buffer, digest
      ensures digest[..] == Digest(m)
    {
      hide DigestWith, Digest, Holds;
      DigestWithTrueCount(m, count0 + TWO32 * count1);
      Final(digest, m);
    }

    method PutDigest(digest: array<bv8>)
      requires Allocated() && digest.Length == 16
      modifies digest
      ensures digest[..] == DigestOf(Registers())
    {
      hide WordBytes;
      for i := 0 to 4
        invariant i >= 1 ==> digest[0..4] == WordBytes(state[0])
        invariant i >= 2 ==> digest[4..8] == WordBytes(state[1])
        invariant i >= 3 ==> digest[8..12] == WordBytes(state[2])
        invariant i >= 4 ==> digest[12..16] == WordBytes(state[3])
      {
        PutWord(digest, 4 * i, state[i]);
      }
      assert digest[..] == digest[0..4] + digest[4..8] + digest[8..12] + digest[12..16];
    }

    /** PUT_32BIT_LE. */
    static method PutWord(cp: array<bv8>, at: nat, value: bv32)
      requires at + 4 <= cp.Length
      modifies cp
      ensures cp[at..at + 4] == WordBytes(value) && cp[..at] == old(cp[..at])
    {
      hide WordBytes;
      var b := WordBytes(value);
      cp[at + 3] := b[3];
      cp[at + 2] := b[2];
      cp[at + 1] := b[1];
      cp[at] := b[0];
    }

    method Wipe()
      requires Allocated()
      modifies this, state, buffer
      ensures count0 == count1 == 0 && Registers() == Quad(0, 0, 0, 0) && forall k :: 0 <= k < 64 ==> buffer[k] == 0
    {
      count0, count1 := 0, 0;
      state[0], state[1], state[2], state[3] := 0, 0, 0, 0;
      forall k | 0 <= k < 64 {
        buffer[k] := 0;
      }
    }
  }

  /** The count after a single piece. */
  lemma FirstCount(len: nat)
    requires len < TWO32
    ensures var (n0, n1) := CountAfter(0, 0, len);
      CarryRight(0, len) ==> n0 + TWO32 * n1 == 8 * len % TWO64
    ensures len < TWO29 ==> CarryRight(0, len)
  {
    CountExactIff(0, 0, 0, len);
  }

  /** librad_md5_calc: the digest of the standard for every length for which the overflow test is right. */
  method Calc(output: array<bv8>, input: seq<bv8>)
    requires output.Length == 16 && |input| < TWO32
    modifies output
    ensures 7 * |input| / TWO32 == |input| / TWO29 ==> output[..] == Digest(input)
    ensures |input| < TWO29 ==> output[..] == Digest(input)
  {
    hide DigestWith, Digest, CarryRight, CountAfter, Context.Holds, Context.CountIs;
    var ctx := new Context();
    ctx.Init();
    ctx.Update(input, []);
    assert [] + input == input;
    FirstCount(|input|);
    CarryRightIff(0, |input|);
    if CarryRight(0, |input|) {
      DigestWithTrueCount(input, ctx.count0 + TWO32 * ctx.count1);
    }
    ctx.Final(output, input);
  }

  function Concat(pieces: seq<seq<bv8>>): seq<bv8> {
    if pieces == [] then [] else Concat(pieces[..|pieces| - 1]) + pieces[|pieces| - 1]
  }

  lemma ConcatNext(pieces: seq<seq<bv8>>, n: nat)
    requires n < |pieces|
    ensures Concat(pieces[..n + 1]) == Concat(pieces[..n]) + pieces[n]
  {
    assert pieces[..n + 1][..n] == pieces[..n];
  }

  lemma {:induction false} ConcatGrows(pieces: seq<seq<bv8>>, n: nat)
    requires n <= |pieces|
    ensures |Concat(pieces[..n])| <= |Concat(pieces)|
    decreases |pieces| - n
  {
    if n == |pieces| {
      assert pieces[..n] == pieces;
    } else {
      ConcatNext(pieces, n);
      ConcatGrows(pieces, n + 1);
    }
  }

  lemma EmptyConcat(pieces: seq<seq<bv8>>)
    ensures Concat(pieces[..0]) == []
  {
  }

  /** Any number of updates, then the end: the digest of everything, for messages of less than 2^29 bytes. */
  method DigestPieces(pieces: seq<seq<bv8>>, output: array<bv8>)
    requires output.Length == 16 && |Concat(pieces)| < TWO29
    modifies output
    ensures output[..] == Digest(Concat(pieces))
  {
    hide DigestWith, Digest, Concat, Context.Holds, Context.CountIs;
    var ctx := new Context();
    ctx.Init();
    EmptyConcat(pieces);
    for i := 0 to |pieces|
      invariant ctx.Holds(Concat(pieces[..i])) && ctx.CountIs(|Concat(pieces[..i])|)
    {
      ConcatNext(pieces, i);
      ConcatGrows(pieces, i + 1);
      ctx.UpdateCounted(pieces[i], Concat(pieces[..i]));
    }
    assert pieces[..|pieces|] == pieces;
    ctx.FinalCounted(output, Concat(pieces));
  }
}
