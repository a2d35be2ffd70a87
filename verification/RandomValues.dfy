/** Known values of the random number generator and of the hash fold, on 32-bit words. */
module RandomValues {
  import opened Words
  import opened RandomGenerator
  import opened Folding

  lemma LastBit(h: nat, a: nat, c: nat)
    ensures 2 * h * a + c == 2 * (h * a + c / 2) + c % 2
  {
  }

  lemma XorLast(a: nat, b: nat, c: nat, d: nat)
    requires c < 2 && d < 2
    ensures Xor(2 * a + c, 2 * b + d) == 2 * Xor(a, b) + if c == d then 0 else 1
  {
    XorStep(2 * a + c, 2 * b + d);
  }

  lemma NoBits()
    ensures Xor(0, 0) == 0
  {
  }

  lemma {:induction false} XorAppended(k: nat, a: nat, b: nat, c: nat, d: nat)
    requires c < Pow2(k) && d < Pow2(k)
    ensures Xor(Pow2(k) * a + c, Pow2(k) * b + d) == Pow2(k) * Xor(a, b) + Xor(c, d)
    decreases k
  {
    hide Xor;
    if k == 0 {
      NoBits();
    } else {
      var h := Pow2(k - 1);
      assert Pow2(k) == 2 * h;
      hide Pow2;
      LastBit(h, a, c);
      LastBit(h, b, d);
      XorAppended(k - 1, a, b, c / 2, d / 2);
      XorLast(h * a + c / 2, h * b + d / 2, c % 2, d % 2);
      XorLast(c / 2, d / 2, c % 2, d % 2);
      LastBit(h, Xor(a, b), 0);
    }
  }

  /** One more hexadecimal digit at the end. */
  lemma XorDigit(a: nat, b: nat, c: nat, d: nat, r: nat, e: nat)
    requires c < 16 && d < 16 && Xor(a, b) == r && Xor(c, d) == e
    ensures Xor(16 * a + c, 16 * b + d) == 16 * r + e
  {
    hide Xor;
    assert Pow2(4) == 16;
    XorAppended(4, a, b, c, d);
  }

  lemma Digits()
    ensures Xor(0, 0) == 0
    ensures Xor(0, 8) == 8 && Xor(0, 12) == 12 && Xor(0, 13) == 13 && Xor(0, 14) == 14
    ensures Xor(1, 0) == 1 && Xor(1, 6) == 7 && Xor(1, 14) == 15 && Xor(2, 0) == 2
    ensures Xor(2, 2) == 0 && Xor(2, 7) == 5 && Xor(2, 12) == 14 && Xor(2, 15) == 13
    ensures Xor(3, 0) == 3 && Xor(3, 5) == 6 && Xor(3, 9) == 10 && Xor(3, 10) == 9
    ensures Xor(3, 11) == 8 && Xor(4, 0) == 4 && Xor(4, 4) == 0 && Xor(5, 0) == 5
    ensures Xor(5, 6) == 3 && Xor(6, 0) == 6 && Xor(6, 10) == 12 && Xor(7, 3) == 4
    ensures Xor(7, 8) == 15 && Xor(7, 9) == 14 && Xor(7, 14) == 9 && Xor(8, 4) == 12
    ensures Xor(8, 7) == 15 && Xor(8, 10) == 2 && Xor(8, 11) == 3 && Xor(9, 13) == 4
    ensures Xor(11, 0) == 11 && Xor(11, 5) == 14 && Xor(12, 15) == 3 && Xor(14, 4) == 10
    ensures Xor(14, 6) == 8 && Xor(14, 8) == 6 && Xor(15, 11) == 4
  {
  }

  lemma FirstXor()
    ensures Xor(187678878, 3771465176) == 3957603654
  {
    hide Xor;
    Digits();
    XorDigit(0x0, 0x0, 0, 14, 0x0, 14);
    XorDigit(0x0, 0xe, 11, 0, 0xe, 11);
    XorDigit(0xb, 0xe0, 2, 12, 0xeb, 14);
    XorDigit(0xb2, 0xe0c, 15, 11, 0xebe, 4);
    XorDigit(0xb2f, 0xe0cb, 12, 15, 0xebe4, 3);
    XorDigit(0xb2fc, 0xe0cbf, 0, 13, 0xebe43, 13);
    XorDigit(0xb2fc0, 0xe0cbfd, 9, 13, 0xebe43d, 4);
    XorDigit(0xb2fc09, 0xe0cbfdd, 14, 8, 0xebe43d4, 6);
  }

  lemma SecondXor()
    ensures Xor(143537923, 3410407051) == 3284703624
  {
    hide Xor;
    Digits();
    XorDigit(0x0, 0x0, 0, 12, 0x0, 12);
    XorDigit(0x0, 0xc, 8, 11, 0xc, 3);
    XorDigit(0x8, 0xcb, 8, 4, 0xc3, 12);
    XorDigit(0x88, 0xcb4, 14, 6, 0xc3c, 8);
    XorDigit(0x88e, 0xcb46, 3, 10, 0xc3c8, 9);
    XorDigit(0x88e3, 0xcb46a, 7, 14, 0xc3c89, 9);
    XorDigit(0x88e37, 0xcb46ae, 0, 8, 0xc3c899, 8);
    XorDigit(0x88e370, 0xcb46ae8, 3, 11, 0xc3c8998, 8);
  }

  lemma Powers()
    ensures Pow2(12) == 0x1000 && Pow2(20) == 0x10_0000 && Pow2(32) == 0x1_0000_0000
  {
    assert Pow2(4) == 16 && Pow2(8) == 0x100;
    Pow2Add(4, 8);
    Pow2Add(8, 12);
    Pow2Add(12, 20);
  }

  lemma MixedValues()
    ensures Affine(32, RND2, SUM_RND3, 65654363) == 3771465176 && Affine(32, RND3, SUM_RND4, 3564027459) == 3410407051
    ensures Affine(32, RND1, SUM_RND2, 2559327369) == 4038825379
    ensures Rotate(32, 3957603654) == 3564027459 && Rotate(32, 3284703624) == 2559327369
  {
    hide Pow2;
    Powers();
  }

  /** ut_rnd_gen_next_ulint(65654363), the value of the start counter. */
  lemma NextOfStart()
    ensures Next(32, 65654363) == 4038825379
  {
    hide Affine, Rotate, Xor;
    MixedValues();
    FirstXor();
    SecondXor();
  }

  lemma PairXor()
    ensures Xor(305419896, 154) == 305420002
  {
    hide Xor;
    Digits();
    XorDigit(0x0, 0x0, 1, 0, 0x0, 1);
    XorDigit(0x1, 0x0, 2, 0, 0x1, 2);
    XorDigit(0x12, 0x0, 3, 0, 0x12, 3);
    XorDigit(0x123, 0x0, 4, 0, 0x123, 4);
    XorDigit(0x1234, 0x0, 5, 0, 0x1234, 5);
    XorDigit(0x12345, 0x0, 6, 0, 0x12345, 6);
    XorDigit(0x123456, 0x0, 7, 9, 0x123456, 14);
    XorDigit(0x1234567, 0x9, 8, 10, 0x123456e, 2);
  }

  lemma MaskXor2()
    ensures Xor(305420002, 1653893711) == 1889549485
  {
    hide Xor;
    Digits();
    XorDigit(0x0, 0x0, 1, 6, 0x0, 7);
    XorDigit(0x1, 0x6, 2, 2, 0x7, 0);
    XorDigit(0x12, 0x62, 3, 9, 0x70, 10);
    XorDigit(0x123, 0x629, 4, 4, 0x70a, 0);
    XorDigit(0x1234, 0x6294, 5, 6, 0x70a0, 3);
    XorDigit(0x12345, 0x62946, 6, 10, 0x70a03, 12);
    XorDigit(0x123456, 0x62946a, 14, 4, 0x70a03c, 10);
    XorDigit(0x123456e, 0x62946a4, 2, 15, 0x70a03ca, 13);
  }

  lemma MaskXor()
    ensures Xor(2993750904, 1463735687) == 3847214847
  {
    hide Xor;
    Digits();
    XorDigit(0x0, 0x0, 11, 5, 0x0, 14);
    XorDigit(0xb, 0x5, 2, 7, 0xe, 5);
    XorDigit(0xb2, 0x57, 7, 3, 0xe5, 4);
    XorDigit(0xb27, 0x573, 1, 14, 0xe54, 15);
    XorDigit(0xb271, 0x573e, 0, 13, 0xe54f, 13);
    XorDigit(0xb2710, 0x573ed, 3, 5, 0xe54fd, 6);
    XorDigit(0xb27103, 0x573ed5, 7, 8, 0xe54fd6, 15);
    XorDigit(0xb271037, 0x573ed58, 8, 7, 0xe54fd6f, 15);
  }

  /** ut_fold_ulint_pair(0x12345678, 0x9a). */
  lemma FoldOfPair()
    ensures FoldPair(32, 0x12345678, 0x9a) == 3847215001
  {
    hide Pow2, Xor;
    Powers();
    PairXor();
    MaskXor2();
    MaskXor();
  }
}
