/** A known answer of MD5: section A.5 of RFC 1321, the message "abc". */
module Md5Vectors {
  import opened Rfc1321
  import opened Md5

  const ABC: seq<bv8> := [0x61, 0x62, 0x63]

  /** The words of its only block: the message, the bit that ends it, and the number of bits. */
  const WORDS: seq<bv32> := [0x80636261, 0, 0, 0, 0, 0, 0, 0, 0, 0, 0, 0, 0, 0, 24, 0]

  lemma OneOperation(i: nat, q: Quad, x: bv32, t: bv32, s: bv32, b: bv32)
    requires Steps(i, INIT, WORDS) == q && x == WORDS[WordIndex(i)] && t == Sine(i) && s == Amount(i) && 1 <= s <= 31
    requires b == Plus(q.b, RotL(Plus(q.a, Plus(Aux(i / 16, q.b, q.c, q.d), Plus(x, t))), s))
    ensures Steps(i + 1, INIT, WORDS) == Quad(q.d, b, q.b, q.c)
  {
    hide Plus, RotL, Aux, Sine, Amount, WordIndex;
  }

  lemma NoSteps()
    ensures Steps(0, INIT, WORDS) == INIT
  {
  }

  lemma StepsTo4()
    ensures Steps(4, INIT, WORDS) == Quad(0xd6d117b4, 0x7ad956f2, 0x2f6fbd72, 0x344a8432)
  {
    hide Sine, Amount, WordIndex, Steps;
    IndicesOne();
    SinesOne();
    AmountsOne();
    NoSteps();
    OneOperation(0, Quad(0x67452301, 0xefcdab89, 0x98badcfe, 0x10325476),
                 0x80636261, 0xd76aa478, 7, 0xd6d117b4);
    OneOperation(1, Quad(0x10325476, 0xd6d117b4, 0xefcdab89, 0x98badcfe),
                 0x00000000, 0xe8c7b756, 12, 0x344a8432);
    OneOperation(2, Quad(0x98badcfe, 0x344a8432, 0xd6d117b4, 0xefcdab89),
                 0x00000000, 0x242070db, 17, 0x2f6fbd72);
    OneOperation(3, Quad(0xefcdab89, 0x2f6fbd72, 0x344a8432, 0xd6d117b4),
                 0x00000000, 0xc1bdceee, 22, 0x7ad956f2);
  }

  lemma StepsTo8()
    ensures Steps(8, INIT, WORDS) == Quad(0xc73741ef, 0x928d99f6, 0x207dc67b, 0x8bac3051)
  {
    hide Sine, Amount, WordIndex, Steps;
    IndicesOne();
    SinesOne();
    AmountsOne();
    StepsTo4();
    OneOperation(4, Quad(0xd6d117b4, 0x7ad956f2, 0x2f6fbd72, 0x344a8432),
                 0x00000000, 0xf57c0faf, 7, 0xc73741ef);
    OneOperation(5, Quad(0x344a8432, 0xc73741ef, 0x7ad956f2, 0x2f6fbd72),
                 0x00000000, 0x4787c62a, 12, 0x8bac3051);
    OneOperation(6, Quad(0x2f6fbd72, 0x8bac3051, 0xc73741ef, 0x7ad956f2),
                 0x00000000, 0xa8304613, 17, 0x207dc67b);
    OneOperation(7, Quad(0x7ad956f2, 0x207dc67b, 0x8bac3051, 0xc73741ef),
                 0x00000000, 0xfd469501, 22, 0x928d99f6);
  }

  lemma StepsTo12()
    ensures Steps(12, INIT, WORDS) == Quad(0x854b3712, 0x5ed49596, 0x3020401c, 0x74e2f284)
  {
    hide Sine, Amount, WordIndex, Steps;
    IndicesOne();
    SinesOne();
    AmountsOne();
    StepsTo8();
    OneOperation(8, Quad(0xc73741ef, 0x928d99f6, 0x207dc67b, 0x8bac3051),
                 0x00000000, 0x698098d8, 7, 0x854b3712);
    OneOperation(9, Quad(0x8bac3051, 0x854b3712, 0x928d99f6, 0x207dc67b),
                 0x00000000, 0x8b44f7af, 12, 0x74e2f284);
    OneOperation(10, Quad(0x207dc67b, 0x74e2f284, 0x854b3712, 0x928d99f6),
                 0x00000000, 0xffff5bb1, 17, 0x3020401c);
    OneOperation(11, Quad(0x928d99f6, 0x3020401c, 0x74e2f284, 0x854b3712),
                 0x00000000, 0x895cd7be, 22, 0x5ed49596);
  }

  lemma StepsTo16()
    ensures Steps(16, INIT, WORDS) == Quad(0xdda9b9a6, 0x72aff2e0, 0xe396856b, 0xa1051895)
  {
    hide Sine, Amount, WordIndex, Steps;
    IndicesOne();
    SinesOne();
    AmountsOne();
    StepsTo12();
    OneOperation(12, Quad(0x854b3712, 0x5ed49596, 0x3020401c, 0x74e2f284),
                 0x00000000, 0x6b901122, 7, 0xdda9b9a6);
    OneOperation(13, Quad(0x74e2f284, 0xdda9b9a6, 0x5ed49596, 0x3020401c),
                 0x00000000, 0xfd987193, 12, 0xa1051895);
    OneOperation(14, Quad(0x3020401c, 0xa1051895, 0xdda9b9a6, 0x5ed49596),
                 0x00000018, 0xa679438e, 17, 0xe396856b);
    OneOperation(15, Quad(0x5ed49596, 0xe396856b, 0xa1051895, 0xdda9b9a6),
                 0x00000000, 0x49b40821, 22, 0x72aff2e0);
  }

  lemma StepsTo20()
    ensures Steps(20, INIT, WORDS) == Quad(0x3e9e9126, 0xb5b204e4, 0xe25e1652, 0x4a1d804e)
  {
    hide Sine, Amount, WordIndex, Steps;
    IndicesTwo();
    SinesTwo();
    AmountsTwo();
    StepsTo16();
    OneOperation(16, Quad(0xdda9b9a6, 0x72aff2e0, 0xe396856b, 0xa1051895),
                 0x00000000, 0xf61e2562, 5, 0x3e9e9126);
    OneOperation(17, Quad(0xa1051895, 0x3e9e9126, 0x72aff2e0, 0xe396856b),
                 0x00000000, 0xc040b340, 9, 0x4a1d804e);
    OneOperation(18, Quad(0xe396856b, 0x4a1d804e, 0x3e9e9126, 0x72aff2e0),
                 0x00000000, 0x265e5a51, 14, 0xe25e1652);
    OneOperation(19, Quad(0x72aff2e0, 0xe25e1652, 0x4a1d804e, 0x3e9e9126),
                 0x80636261, 0xe9b6c7aa, 20, 0xb5b204e4);
  }

  lemma StepsTo24()
    ensures Steps(24, INIT, WORDS) == Quad(0x59a8ffda, 0x47092c07, 0xabfc7920, 0x6d002f1e)
  {
    hide Sine, Amount, WordIndex, Steps;
    IndicesTwo();
    SinesTwo();
    AmountsTwo();
    StepsTo20();
    OneOperation(20, Quad(0x3e9e9126, 0xb5b204e4, 0xe25e1652, 0x4a1d804e),
                 0x00000000, 0xd62f105d, 5, 0x59a8ffda);
    OneOperation(21, Quad(0x4a1d804e, 0x59a8ffda, 0xb5b204e4, 0xe25e1652),
                 0x00000000, 0x02441453, 9, 0x6d002f1e);
    OneOperation(22, Quad(0xe25e1652, 0x6d002f1e, 0x59a8ffda, 0xb5b204e4),
                 0x00000000, 0xd8a1e681, 14, 0xabfc7920);
    OneOperation(23, Quad(0xb5b204e4, 0xabfc7920, 0x6d002f1e, 0x59a8ffda),
                 0x00000000, 0xe7d3fbc8, 20, 0x47092c07);
  }

  lemma StepsTo28()
    ensures Steps(28, INIT, WORDS) == Quad(0xb7f268cf, 0x786acb8f, 0xfe1623b1, 0x09388eff)
  {
    hide Sine, Amount, WordIndex, Steps;
    IndicesTwo();
    SinesTwo();
    AmountsTwo();
    StepsTo24();
    OneOperation(24, Quad(0x59a8ffda, 0x47092c07, 0xabfc7920, 0x6d002f1e),
                 0x00000000, 0x21e1cde6, 5, 0xb7f268cf);
    OneOperation(25, Quad(0x6d002f1e, 0xb7f268cf, 0x47092c07, 0xabfc7920),
                 0x00000018, 0xc33707d6, 9, 0x09388eff);
    OneOperation(26, Quad(0xabfc7920, 0x09388eff, 0xb7f268cf, 0x47092c07),
                 0x00000000, 0xf4d50d87, 14, 0xfe1623b1);
    OneOperation(27, Quad(0x47092c07, 0xfe1623b1, 0x09388eff, 0xb7f268cf),
                 0x00000000, 0x455a14ed, 20, 0x786acb8f);
  }

  lemma StepsTo32()
    ensures Steps(32, INIT, WORDS) == Quad(0x790a77fb, 0x726342d3, 0xa62884aa, 0x9f47e4f8)
  {
    hide Sine, Amount, WordIndex, Steps;
    IndicesTwo();
    SinesTwo();
    AmountsTwo();
    StepsTo28();
    OneOperation(28, Quad(0xb7f268cf, 0x786acb8f, 0xfe1623b1, 0x09388eff),
                 0x00000000, 0xa9e3e905, 5, 0x790a77fb);
    OneOperation(29, Quad(0x09388eff, 0x790a77fb, 0x786acb8f, 0xfe1623b1),
                 0x00000000, 0xfcefa3f8, 9, 0x9f47e4f8);
    OneOperation(30, Quad(0xfe1623b1, 0x9f47e4f8, 0x790a77fb, 0x786acb8f),
                 0x00000000, 0x676f02d9, 14, 0xa62884aa);
    OneOperation(31, Quad(0x786acb8f, 0xa62884aa, 0x9f47e4f8, 0x790a77fb),
                 0x00000000, 0x8d2a4c8a, 20, 0x726342d3);
  }

  lemma StepsTo36()
    ensures Steps(36, INIT, WORDS) == Quad(0xb3707ebf, 0x3b0875c7, 0x8d212ff5, 0x60127b2e)
  {
    hide Sine, Amount, WordIndex, Steps;
    IndicesThree();
    SinesThree();
    AmountsThree();
    StepsTo32();
    OneOperation(32, Quad(0x790a77fb, 0x726342d3, 0xa62884aa, 0x9f47e4f8),
                 0x00000000, 0xfffa3942, 4, 0xb3707ebf);
    OneOperation(33, Quad(0x9f47e4f8, 0xb3707ebf, 0x726342d3, 0xa62884aa),
                 0x00000000, 0x8771f681, 11, 0x60127b2e);
    OneOperation(34, Quad(0xa62884aa, 0x60127b2e, 0xb3707ebf, 0x726342d3),
                 0x00000000, 0x6d9d6122, 16, 0x8d212ff5);
    OneOperation(35, Quad(0x726342d3, 0x8d212ff5, 0x60127b2e, 0xb3707ebf),
                 0x00000018, 0xfde5380c, 23, 0x3b0875c7);
  }

  lemma StepsTo40()
    ensures Steps(40, INIT, WORDS) == Quad(0x21b117b9, 0x5a2f5ea5, 0x3575227e, 0x6e7429d5)
  {
    hide Sine, Amount, WordIndex, Steps;
    IndicesThree();
    SinesThree();
    AmountsThree();
    StepsTo36();
    OneOperation(36, Quad(0xb3707ebf, 0x3b0875c7, 0x8d212ff5, 0x60127b2e),
                 0x00000000, 0xa4beea44, 4, 0x21b117b9);
    OneOperation(37, Quad(0x60127b2e, 0x21b117b9, 0x3b0875c7, 0x8d212ff5),
                 0x00000000, 0x4bdecfa9, 11, 0x6e7429d5);
    OneOperation(38, Quad(0x8d212ff5, 0x6e7429d5, 0x21b117b9, 0x3b0875c7),
                 0x00000000, 0xf6bb4b60, 16, 0x3575227e);
    OneOperation(39, Quad(0x3b0875c7, 0x3575227e, 0x6e7429d5, 0x21b117b9),
                 0x00000000, 0xbebfbc70, 23, 0x5a2f5ea5);
  }

  lemma StepsTo44()
    ensures Steps(44, INIT, WORDS) == Quad(0x11de1779, 0x4c6124f4, 0x31c465ca, 0xfadcaa38)
  {
    hide Sine, Amount, WordIndex, Steps;
    IndicesThree();
    SinesThree();
    AmountsThree();
    StepsTo40();
    OneOperation(40, Quad(0x21b117b9, 0x5a2f5ea5, 0x3575227e, 0x6e7429d5),
                 0x00000000, 0x289b7ec6, 4, 0x11de1779);
    OneOperation(41, Quad(0x6e7429d5, 0x11de1779, 0x5a2f5ea5, 0x3575227e),
                 0x80636261, 0xeaa127fa, 11, 0xfadcaa38);
    OneOperation(42, Quad(0x3575227e, 0xfadcaa38, 0x11de1779, 0x5a2f5ea5),
                 0x00000000, 0xd4ef3085, 16, 0x31c465ca);
    OneOperation(43, Quad(0x5a2f5ea5, 0x31c465ca, 0xfadcaa38, 0x11de1779),
                 0x00000000, 0x04881d05, 23, 0x4c6124f4);
  }

  lemma StepsTo48()
    ensures Steps(48, INIT, WORDS) == Quad(0x7f2e507b, 0x7beb9700, 0x8fae6399, 0x99d9679d)
  {
    hide Sine, Amount, WordIndex, Steps;
    IndicesThree();
    SinesThree();
    AmountsThree();
    StepsTo44();
    OneOperation(44, Quad(0x11de1779, 0x4c6124f4, 0x31c465ca, 0xfadcaa38),
                 0x00000000, 0xd9d4d039, 4, 0x7f2e507b);
    OneOperation(45, Quad(0xfadcaa38, 0x7f2e507b, 0x4c6124f4, 0x31c465ca),
                 0x00000000, 0xe6db99e5, 11, 0x99d9679d);
    OneOperation(46, Quad(0x31c465ca, 0x99d9679d, 0x7f2e507b, 0x4c6124f4),
                 0x00000000, 0x1fa27cf8, 16, 0x8fae6399);
    OneOperation(47, Quad(0x4c6124f4, 0x8fae6399, 0x99d9679d, 0x7f2e507b),
                 0x00000000, 0xc4ac5665, 23, 0x7beb9700);
  }

  lemma StepsTo52()
    ensures Steps(52, INIT, WORDS) == Quad(0x7b201df8, 0x8bf025c4, 0xb298cefd, 0xf4e8e96e)
  {
    hide Sine, Amount, WordIndex, Steps;
    IndicesFour();
    SinesFour();
    AmountsFour();
    StepsTo48();
    OneOperation(48, Quad(0x7f2e507b, 0x7beb9700, 0x8fae6399, 0x99d9679d),
                 0x80636261, 0xf4292244, 6, 0x7b201df8);
    OneOperation(49, Quad(0x99d9679d, 0x7b201df8, 0x7beb9700, 0x8fae6399),
                 0x00000000, 0x432aff97, 10, 0xf4e8e96e);
    OneOperation(50, Quad(0x8fae6399, 0xf4e8e96e, 0x7b201df8, 0x7beb9700),
                 0x00000018, 0xab9423a7, 15, 0xb298cefd);
    OneOperation(51, Quad(0x7beb9700, 0xb298cefd, 0xf4e8e96e, 0x7b201df8),
                 0x00000000, 0xfc93a039, 21, 0x8bf025c4);
  }

  lemma StepsTo56()
    ensures Steps(56, INIT, WORDS) == Quad(0x06cc5e8a, 0x3bfa2c27, 0x7d632dd0, 0x5b0d97aa)
  {
    hide Sine, Amount, WordIndex, Steps;
    IndicesFour();
    SinesFour();
    AmountsFour();
    StepsTo52();
    OneOperation(52, Quad(0x7b201df8, 0x8bf025c4, 0xb298cefd, 0xf4e8e96e),
                 0x00000000, 0x655b59c3, 6, 0x06cc5e8a);
    OneOperation(53, Quad(0xf4e8e96e, 0x06cc5e8a, 0x8bf025c4, 0xb298cefd),
                 0x00000000, 0x8f0ccc92, 10, 0x5b0d97aa);
    OneOperation(54, Quad(0xb298cefd, 0x5b0d97aa, 0x06cc5e8a, 0x8bf025c4),
                 0x00000000, 0xffeff47d, 15, 0x7d632dd0);
    OneOperation(55, Quad(0x8bf025c4, 0x7d632dd0, 0x5b0d97aa, 0x06cc5e8a),
                 0x00000000, 0x85845dd1, 21, 0x3bfa2c27);
  }

  lemma StepsTo60()
    ensures Steps(60, INIT, WORDS) == Quad(0x7f81cc35, 0x7327d604, 0x4f9dbe3f, 0x094454ab)
  {
    hide Sine, Amount, WordIndex, Steps;
    IndicesFour();
    SinesFour();
    AmountsFour();
    StepsTo56();
    OneOperation(56, Quad(0x06cc5e8a, 0x3bfa2c27, 0x7d632dd0, 0x5b0d97aa),
                 0x00000000, 0x6fa87e4f, 6, 0x7f81cc35);
    OneOperation(57, Quad(0x5b0d97aa, 0x7f81cc35, 0x3bfa2c27, 0x7d632dd0),
                 0x00000000, 0xfe2ce6e0, 10, 0x094454ab);
    OneOperation(58, Quad(0x7d632dd0, 0x094454ab, 0x7f81cc35, 0x3bfa2c27),
                 0x00000000, 0xa3014314, 15, 0x4f9dbe3f);
    OneOperation(59, Quad(0x3bfa2c27, 0x4f9dbe3f, 0x094454ab, 0x7f81cc35),
                 0x00000000, 0x4e0811a1, 21, 0x7327d604);
  }

  lemma StepsTo64()
    ensures Steps(64, INIT, WORDS) == Quad(0x310ade8f, 0xc08226b3, 0xe484b9d8, 0x624d8cb2)
  {
    hide Sine, Amount, WordIndex, Steps;
    IndicesFour();
    SinesFour();
    AmountsFour();
    StepsTo60();
    OneOperation(60, Quad(0x7f81cc35, 0x7327d604, 0x4f9dbe3f, 0x094454ab),
                 0x00000000, 0xf7537e82, 6, 0x310ade8f);
    OneOperation(61, Quad(0x094454ab, 0x310ade8f, 0x7327d604, 0x4f9dbe3f),
                 0x00000000, 0xbd3af235, 10, 0x624d8cb2);
    OneOperation(62, Quad(0x4f9dbe3f, 0x624d8cb2, 0x310ade8f, 0x7327d604),
                 0x00000000, 0x2ad7d2bb, 15, 0xe484b9d8);
    OneOperation(63, Quad(0x7327d604, 0xe484b9d8, 0x624d8cb2, 0x310ade8f),
                 0x00000000, 0xeb86d391, 21, 0xc08226b3);
  }

  lemma CountOfAbc()
    ensures CountBytes(24) == [24, 0, 0, 0, 0, 0, 0, 0]
  {
  }

  lemma BlockOfAbc()
    ensures Padded(ABC, 24) == ABC + [0x80] + ZeroBytes(52) + [24, 0, 0, 0, 0, 0, 0, 0]
  {
    hide CountBytes, ZeroBytes;
    CountOfAbc();
    assert ZeroCount(3) == 52;
  }

  lemma {:induction false} WordAt(block: seq<bv8>, n: nat, i: nat)
    requires 4 * n <= |block| && i < n
    ensures Words(block, n)[i] == WordOf(block[4 * i], block[4 * i + 1], block[4 * i + 2], block[4 * i + 3])
  {
    hide WordOf;
    if i < n - 1 {
      WordAt(block, n - 1, i);
    }
  }

  lemma WordValues()
    ensures WordOf(0x61, 0x62, 0x63, 0x80) == 0x80636261 && WordOf(0, 0, 0, 0) == 0 && WordOf(24, 0, 0, 0) == 24
  {
  }

  lemma WordsOfAbc()
    ensures |Padded(ABC, 24)| == 64 && Words(Padded(ABC, 24), 16) == WORDS
  {
    hide Padded, Words, WordOf;
    BlockOfAbc();
    WordValues();
    var p := Padded(ABC, 24);
    forall i | 0 <= i < 16 ensures Words(p, 16)[i] == WORDS[i] {
      WordAt(p, 16, i);
    }
  }

  const RESULT := Quad(0x98500190, 0xb04fd23c, 0x7d3f96d6, 0x727fe128)

  lemma BlockResult()
    ensures Compress(INIT, Padded(ABC, 24)) == RESULT
  {
    hide Padded, Words, Steps;
    WordsOfAbc();
    StepsTo64();
  }

  lemma ResultBytes()
    ensures DigestOf(RESULT) == [0x90, 0x01, 0x50, 0x98, 0x3c, 0xd2, 0x4f, 0xb0,
                                 0xd6, 0x96, 0x3f, 0x7d, 0x28, 0xe1, 0x7f, 0x72]
  {
  }

  lemma OneBlock(p: seq<bv8>)
    requires |p| == 64
    ensures Blocks(p, 1) == Compress(INIT, p)
  {
    hide Compress;
    assert p[0..64] == p && Blocks(p, 0) == INIT;
  }

  lemma BitsOfAbc()
    ensures Digest(ABC) == DigestWith(ABC, 24)
  {
    hide DigestWith;
  }

  /** MD5 ("abc") = 900150983cd24fb0d6963f7d28e17f72. */
  lemma DigestOfAbc()
    ensures Digest(ABC) == [0x90, 0x01, 0x50, 0x98, 0x3c, 0xd2, 0x4f, 0xb0,
                            0xd6, 0x96, 0x3f, 0x7d, 0x28, 0xe1, 0x7f, 0x72]
  {
    hide Padded, Compress, DigestOf, Digest, Blocks;
    WordsOfAbc();
    BlockResult();
    ResultBytes();
    BitsOfAbc();
    OneBlock(Padded(ABC, 24));
  }
}
