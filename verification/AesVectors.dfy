/** The S-box of figure 7 of FIPS-197, the round constants, and known answers of its appendices. */
module SBoxTable {
  import opened GaloisField
  import opened Fips197

  lemma InverseIs(x: bv8, y: bv8)
    requires Mul(x, y) == 1
    ensures Inverse(x) == y
  {
    hide Mul, Pow;
    MulByZero(y);
    var i := PowSurjective(x);
    InversePow(i);
    InverseOfPow(i, y);
  }

  lemma Entry(x: bv8, y: bv8)
    requires MulUnrolled(x, y) == 1
    ensures SBox(x) == Affine(y)
  {
    hide Mul, Affine, Inverse, MulUnrolled;
    MulUnrolls(x, y);
    InverseIs(x, y);
  }

  // ----- figure 7, a lemma for each row

  lemma Row0()
    ensures SBox(0x00) == 0x63 && SBox(0x01) == 0x7c && SBox(0x02) == 0x77 && SBox(0x03) == 0x7b
    ensures SBox(0x04) == 0xf2 && SBox(0x05) == 0x6b && SBox(0x06) == 0x6f && SBox(0x07) == 0xc5
    ensures SBox(0x08) == 0x30 && SBox(0x09) == 0x01 && SBox(0x0a) == 0x67 && SBox(0x0b) == 0x2b
    ensures SBox(0x0c) == 0xfe && SBox(0x0d) == 0xd7 && SBox(0x0e) == 0xab && SBox(0x0f) == 0x76
  {
    assert Inverse(0) == 0; Entry(0x01, 0x01); Entry(0x02, 0x8d); Entry(0x03, 0xf6);
    Entry(0x04, 0xcb); Entry(0x05, 0x52); Entry(0x06, 0x7b); Entry(0x07, 0xd1);
    Entry(0x08, 0xe8); Entry(0x09, 0x4f); Entry(0x0a, 0x29); Entry(0x0b, 0xc0);
    Entry(0x0c, 0xb0); Entry(0x0d, 0xe1); Entry(0x0e, 0xe5); Entry(0x0f, 0xc7);
  }

  lemma Row1()
    ensures SBox(0x10) == 0xca && SBox(0x11) == 0x82 && SBox(0x12) == 0xc9 && SBox(0x13) == 0x7d
    ensures SBox(0x14) == 0xfa && SBox(0x15) == 0x59 && SBox(0x16) == 0x47 && SBox(0x17) == 0xf0
    ensures SBox(0x18) == 0xad && SBox(0x19) == 0xd4 && SBox(0x1a) == 0xa2 && SBox(0x1b) == 0xaf
    ensures SBox(0x1c) == 0x9c && SBox(0x1d) == 0xa4 && SBox(0x1e) == 0x72 && SBox(0x1f) == 0xc0
  {
    Entry(0x10, 0x74); Entry(0x11, 0xb4); Entry(0x12, 0xaa); Entry(0x13, 0x4b);
    Entry(0x14, 0x99); Entry(0x15, 0x2b); Entry(0x16, 0x60); Entry(0x17, 0x5f);
    Entry(0x18, 0x58); Entry(0x19, 0x3f); Entry(0x1a, 0xfd); Entry(0x1b, 0xcc);
    Entry(0x1c, 0xff); Entry(0x1d, 0x40); Entry(0x1e, 0xee); Entry(0x1f, 0xb2);
  }

  lemma Row2()
    ensures SBox(0x20) == 0xb7 && SBox(0x21) == 0xfd && SBox(0x22) == 0x93 && SBox(0x23) == 0x26
    ensures SBox(0x24) == 0x36 && SBox(0x25) == 0x3f && SBox(0x26) == 0xf7 && SBox(0x27) == 0xcc
    ensures SBox(0x28) == 0x34 && SBox(0x29) == 0xa5 && SBox(0x2a) == 0xe5 && SBox(0x2b) == 0xf1
    ensures SBox(0x2c) == 0x71 && SBox(0x2d) == 0xd8 && SBox(0x2e) == 0x31 && SBox(0x2f) == 0x15
  {
    Entry(0x20, 0x3a); Entry(0x21, 0x6e); Entry(0x22, 0x5a); Entry(0x23, 0xf1);
    Entry(0x24, 0x55); Entry(0x25, 0x4d); Entry(0x26, 0xa8); Entry(0x27, 0xc9);
    Entry(0x28, 0xc1); Entry(0x29, 0x0a); Entry(0x2a, 0x98); Entry(0x2b, 0x15);
    Entry(0x2c, 0x30); Entry(0x2d, 0x44); Entry(0x2e, 0xa2); Entry(0x2f, 0xc2);
  }

  lemma Row3()
    ensures SBox(0x30) == 0x04 && SBox(0x31) == 0xc7 && SBox(0x32) == 0x23 && SBox(0x33) == 0xc3
    ensures SBox(0x34) == 0x18 && SBox(0x35) == 0x96 && SBox(0x36) == 0x05 && SBox(0x37) == 0x9a
    ensures SBox(0x38) == 0x07 && SBox(0x39) == 0x12 && SBox(0x3a) == 0x80 && SBox(0x3b) == 0xe2
    ensures SBox(0x3c) == 0xeb && SBox(0x3d) == 0x27 && SBox(0x3e) == 0xb2 && SBox(0x3f) == 0x75
  {
    Entry(0x30, 0x2c); Entry(0x31, 0x45); Entry(0x32, 0x92); Entry(0x33, 0x6c);
    Entry(0x34, 0xf3); Entry(0x35, 0x39); Entry(0x36, 0x66); Entry(0x37, 0x42);
    Entry(0x38, 0xf2); Entry(0x39, 0x35); Entry(0x3a, 0x20); Entry(0x3b, 0x6f);
    Entry(0x3c, 0x77); Entry(0x3d, 0xbb); Entry(0x3e, 0x59); Entry(0x3f, 0x19);
  }

  lemma Row4()
    ensures SBox(0x40) == 0x09 && SBox(0x41) == 0x83 && SBox(0x42) == 0x2c && SBox(0x43) == 0x1a
    ensures SBox(0x44) == 0x1b && SBox(0x45) == 0x6e && SBox(0x46) == 0x5a && SBox(0x47) == 0xa0
    ensures SBox(0x48) == 0x52 && SBox(0x49) == 0x3b && SBox(0x4a) == 0xd6 && SBox(0x4b) == 0xb3
    ensures SBox(0x4c) == 0x29 && SBox(0x4d) == 0xe3 && SBox(0x4e) == 0x2f && SBox(0x4f) == 0x84
  {
    Entry(0x40, 0x1d); Entry(0x41, 0xfe); Entry(0x42, 0x37); Entry(0x43, 0x67);
    Entry(0x44, 0x2d); Entry(0x45, 0x31); Entry(0x46, 0xf5); Entry(0x47, 0x69);
    Entry(0x48, 0xa7); Entry(0x49, 0x64); Entry(0x4a, 0xab); Entry(0x4b, 0x13);
    Entry(0x4c, 0x54); Entry(0x4d, 0x25); Entry(0x4e, 0xe9); Entry(0x4f, 0x09);
  }

  lemma Row5()
    ensures SBox(0x50) == 0x53 && SBox(0x51) == 0xd1 && SBox(0x52) == 0x00 && SBox(0x53) == 0xed
    ensures SBox(0x54) == 0x20 && SBox(0x55) == 0xfc && SBox(0x56) == 0xb1 && SBox(0x57) == 0x5b
    ensures SBox(0x58) == 0x6a && SBox(0x59) == 0xcb && SBox(0x5a) == 0xbe && SBox(0x5b) == 0x39
    ensures SBox(0x5c) == 0x4a && SBox(0x5d) == 0x4c && SBox(0x5e) == 0x58 && SBox(0x5f) == 0xcf
  {
    Entry(0x50, 0xed); Entry(0x51, 0x5c); Entry(0x52, 0x05); Entry(0x53, 0xca);
    Entry(0x54, 0x4c); Entry(0x55, 0x24); Entry(0x56, 0x87); Entry(0x57, 0xbf);
    Entry(0x58, 0x18); Entry(0x59, 0x3e); Entry(0x5a, 0x22); Entry(0x5b, 0xf0);
    Entry(0x5c, 0x51); Entry(0x5d, 0xec); Entry(0x5e, 0x61); Entry(0x5f, 0x17);
  }

  lemma Row6()
    ensures SBox(0x60) == 0xd0 && SBox(0x61) == 0xef && SBox(0x62) == 0xaa && SBox(0x63) == 0xfb
    ensures SBox(0x64) == 0x43 && SBox(0x65) == 0x4d && SBox(0x66) == 0x33 && SBox(0x67) == 0x85
    ensures SBox(0x68) == 0x45 && SBox(0x69) == 0xf9 && SBox(0x6a) == 0x02 && SBox(0x6b) == 0x7f
    ensures SBox(0x6c) == 0x50 && SBox(0x6d) == 0x3c && SBox(0x6e) == 0x9f && SBox(0x6f) == 0xa8
  {
    Entry(0x60, 0x16); Entry(0x61, 0x5e); Entry(0x62, 0xaf); Entry(0x63, 0xd3);
    Entry(0x64, 0x49); Entry(0x65, 0xa6); Entry(0x66, 0x36); Entry(0x67, 0x43);
    Entry(0x68, 0xf4); Entry(0x69, 0x47); Entry(0x6a, 0x91); Entry(0x6b, 0xdf);
    Entry(0x6c, 0x33); Entry(0x6d, 0x93); Entry(0x6e, 0x21); Entry(0x6f, 0x3b);
  }

  lemma Row7()
    ensures SBox(0x70) == 0x51 && SBox(0x71) == 0xa3 && SBox(0x72) == 0x40 && SBox(0x73) == 0x8f
    ensures SBox(0x74) == 0x92 && SBox(0x75) == 0x9d && SBox(0x76) == 0x38 && SBox(0x77) == 0xf5
    ensures SBox(0x78) == 0xbc && SBox(0x79) == 0xb6 && SBox(0x7a) == 0xda && SBox(0x7b) == 0x21
    ensures SBox(0x7c) == 0x10 && SBox(0x7d) == 0xff && SBox(0x7e) == 0xf3 && SBox(0x7f) == 0xd2
  {
    Entry(0x70, 0x79); Entry(0x71, 0xb7); Entry(0x72, 0x97); Entry(0x73, 0x85);
    Entry(0x74, 0x10); Entry(0x75, 0xb5); Entry(0x76, 0xba); Entry(0x77, 0x3c);
    Entry(0x78, 0xb6); Entry(0x79, 0x70); Entry(0x7a, 0xd0); Entry(0x7b, 0x06);
    Entry(0x7c, 0xa1); Entry(0x7d, 0xfa); Entry(0x7e, 0x81); Entry(0x7f, 0x82);
  }

  lemma Row8()
    ensures SBox(0x80) == 0xcd && SBox(0x81) == 0x0c && SBox(0x82) == 0x13 && SBox(0x83) == 0xec
    ensures SBox(0x84) == 0x5f && SBox(0x85) == 0x97 && SBox(0x86) == 0x44 && SBox(0x87) == 0x17
    ensures SBox(0x88) == 0xc4 && SBox(0x89) == 0xa7 && SBox(0x8a) == 0x7e && SBox(0x8b) == 0x3d
    ensures SBox(0x8c) == 0x64 && SBox(0x8d) == 0x5d && SBox(0x8e) == 0x19 && SBox(0x8f) == 0x73
  {
    Entry(0x80, 0x83); Entry(0x81, 0x7e); Entry(0x82, 0x7f); Entry(0x83, 0x80);
    Entry(0x84, 0x96); Entry(0x85, 0x73); Entry(0x86, 0xbe); Entry(0x87, 0x56);
    Entry(0x88, 0x9b); Entry(0x89, 0x9e); Entry(0x8a, 0x95); Entry(0x8b, 0xd9);
    Entry(0x8c, 0xf7); Entry(0x8d, 0x02); Entry(0x8e, 0xb9); Entry(0x8f, 0xa4);
  }

  lemma Row9()
    ensures SBox(0x90) == 0x60 && SBox(0x91) == 0x81 && SBox(0x92) == 0x4f && SBox(0x93) == 0xdc
    ensures SBox(0x94) == 0x22 && SBox(0x95) == 0x2a && SBox(0x96) == 0x90 && SBox(0x97) == 0x88
    ensures SBox(0x98) == 0x46 && SBox(0x99) == 0xee && SBox(0x9a) == 0xb8 && SBox(0x9b) == 0x14
    ensures SBox(0x9c) == 0xde && SBox(0x9d) == 0x5e && SBox(0x9e) == 0x0b && SBox(0x9f) == 0xdb
  {
    Entry(0x90, 0xde); Entry(0x91, 0x6a); Entry(0x92, 0x32); Entry(0x93, 0x6d);
    Entry(0x94, 0xd8); Entry(0x95, 0x8a); Entry(0x96, 0x84); Entry(0x97, 0x72);
    Entry(0x98, 0x2a); Entry(0x99, 0x14); Entry(0x9a, 0x9f); Entry(0x9b, 0x88);
    Entry(0x9c, 0xf9); Entry(0x9d, 0xdc); Entry(0x9e, 0x89); Entry(0x9f, 0x9a);
  }

  lemma RowA()
    ensures SBox(0xa0) == 0xe0 && SBox(0xa1) == 0x32 && SBox(0xa2) == 0x3a && SBox(0xa3) == 0x0a
    ensures SBox(0xa4) == 0x49 && SBox(0xa5) == 0x06 && SBox(0xa6) == 0x24 && SBox(0xa7) == 0x5c
    ensures SBox(0xa8) == 0xc2 && SBox(0xa9) == 0xd3 && SBox(0xaa) == 0xac && SBox(0xab) == 0x62
    ensures SBox(0xac) == 0x91 && SBox(0xad) == 0x95 && SBox(0xae) == 0xe4 && SBox(0xaf) == 0x79
  {
    Entry(0xa0, 0xfb); Entry(0xa1, 0x7c); Entry(0xa2, 0x2e); Entry(0xa3, 0xc3);
    Entry(0xa4, 0x8f); Entry(0xa5, 0xb8); Entry(0xa6, 0x65); Entry(0xa7, 0x48);
    Entry(0xa8, 0x26); Entry(0xa9, 0xc8); Entry(0xaa, 0x12); Entry(0xab, 0x4a);
    Entry(0xac, 0xce); Entry(0xad, 0xe7); Entry(0xae, 0xd2); Entry(0xaf, 0x62);
  }

  lemma RowB()
    ensures SBox(0xb0) == 0xe7 && SBox(0xb1) == 0xc8 && SBox(0xb2) == 0x37 && SBox(0xb3) == 0x6d
    ensures SBox(0xb4) == 0x8d && SBox(0xb5) == 0xd5 && SBox(0xb6) == 0x4e && SBox(0xb7) == 0xa9
    ensures SBox(0xb8) == 0x6c && SBox(0xb9) == 0x56 && SBox(0xba) == 0xf4 && SBox(0xbb) == 0xea
    ensures SBox(0xbc) == 0x65 && SBox(0xbd) == 0x7a && SBox(0xbe) == 0xae && SBox(0xbf) == 0x08
  {
    Entry(0xb0, 0x0c); Entry(0xb1, 0xe0); Entry(0xb2, 0x1f); Entry(0xb3, 0xef);
    Entry(0xb4, 0x11); Entry(0xb5, 0x75); Entry(0xb6, 0x78); Entry(0xb7, 0x71);
    Entry(0xb8, 0xa5); Entry(0xb9, 0x8e); Entry(0xba, 0x76); Entry(0xbb, 0x3d);
    Entry(0xbc, 0xbd); Entry(0xbd, 0xbc); Entry(0xbe, 0x86); Entry(0xbf, 0x57);
  }

  lemma RowC()
    ensures SBox(0xc0) == 0xba && SBox(0xc1) == 0x78 && SBox(0xc2) == 0x25 && SBox(0xc3) == 0x2e
    ensures SBox(0xc4) == 0x1c && SBox(0xc5) == 0xa6 && SBox(0xc6) == 0xb4 && SBox(0xc7) == 0xc6
    ensures SBox(0xc8) == 0xe8 && SBox(0xc9) == 0xdd && SBox(0xca) == 0x74 && SBox(0xcb) == 0x1f
    ensures SBox(0xcc) == 0x4b && SBox(0xcd) == 0xbd && SBox(0xce) == 0x8b && SBox(0xcf) == 0x8a
  {
    Entry(0xc0, 0x0b); Entry(0xc1, 0x28); Entry(0xc2, 0x2f); Entry(0xc3, 0xa3);
    Entry(0xc4, 0xda); Entry(0xc5, 0xd4); Entry(0xc6, 0xe4); Entry(0xc7, 0x0f);
    Entry(0xc8, 0xa9); Entry(0xc9, 0x27); Entry(0xca, 0x53); Entry(0xcb, 0x04);
    Entry(0xcc, 0x1b); Entry(0xcd, 0xfc); Entry(0xce, 0xac); Entry(0xcf, 0xe6);
  }

  lemma RowD()
    ensures SBox(0xd0) == 0x70 && SBox(0xd1) == 0x3e && SBox(0xd2) == 0xb5 && SBox(0xd3) == 0x66
    ensures SBox(0xd4) == 0x48 && SBox(0xd5) == 0x03 && SBox(0xd6) == 0xf6 && SBox(0xd7) == 0x0e
    ensures SBox(0xd8) == 0x61 && SBox(0xd9) == 0x35 && SBox(0xda) == 0x57 && SBox(0xdb) == 0xb9
    ensures SBox(0xdc) == 0x86 && SBox(0xdd) == 0xc1 && SBox(0xde) == 0x1d && SBox(0xdf) == 0x9e
  {
    Entry(0xd0, 0x7a); Entry(0xd1, 0x07); Entry(0xd2, 0xae); Entry(0xd3, 0x63);
    Entry(0xd4, 0xc5); Entry(0xd5, 0xdb); Entry(0xd6, 0xe2); Entry(0xd7, 0xea);
    Entry(0xd8, 0x94); Entry(0xd9, 0x8b); Entry(0xda, 0xc4); Entry(0xdb, 0xd5);
    Entry(0xdc, 0x9d); Entry(0xdd, 0xf8); Entry(0xde, 0x90); Entry(0xdf, 0x6b);
  }

  lemma RowE()
    ensures SBox(0xe0) == 0xe1 && SBox(0xe1) == 0xf8 && SBox(0xe2) == 0x98 && SBox(0xe3) == 0x11
    ensures SBox(0xe4) == 0x69 && SBox(0xe5) == 0xd9 && SBox(0xe6) == 0x8e && SBox(0xe7) == 0x94
    ensures SBox(0xe8) == 0x9b && SBox(0xe9) == 0x1e && SBox(0xea) == 0x87 && SBox(0xeb) == 0xe9
    ensures SBox(0xec) == 0xce && SBox(0xed) == 0x55 && SBox(0xee) == 0x28 && SBox(0xef) == 0xdf
  {
    Entry(0xe0, 0xb1); Entry(0xe1, 0x0d); Entry(0xe2, 0xd6); Entry(0xe3, 0xeb);
    Entry(0xe4, 0xc6); Entry(0xe5, 0x0e); Entry(0xe6, 0xcf); Entry(0xe7, 0xad);
    Entry(0xe8, 0x08); Entry(0xe9, 0x4e); Entry(0xea, 0xd7); Entry(0xeb, 0xe3);
    Entry(0xec, 0x5d); Entry(0xed, 0x50); Entry(0xee, 0x1e); Entry(0xef, 0xb3);
  }

  lemma RowF()
    ensures SBox(0xf0) == 0x8c && SBox(0xf1) == 0xa1 && SBox(0xf2) == 0x89 && SBox(0xf3) == 0x0d
    ensures SBox(0xf4) == 0xbf && SBox(0xf5) == 0xe6 && SBox(0xf6) == 0x42 && SBox(0xf7) == 0x68
    ensures SBox(0xf8) == 0x41 && SBox(0xf9) == 0x99 && SBox(0xfa) == 0x2d && SBox(0xfb) == 0x0f
    ensures SBox(0xfc) == 0xb0 && SBox(0xfd) == 0x54 && SBox(0xfe) == 0xbb && SBox(0xff) == 0x16
  {
    Entry(0xf0, 0x5b); Entry(0xf1, 0x23); Entry(0xf2, 0x38); Entry(0xf3, 0x34);
    Entry(0xf4, 0x68); Entry(0xf5, 0x46); Entry(0xf6, 0x03); Entry(0xf7, 0x8c);
    Entry(0xf8, 0xdd); Entry(0xf9, 0x9c); Entry(0xfa, 0x7d); Entry(0xfb, 0xa0);
    Entry(0xfc, 0xcd); Entry(0xfd, 0x1a); Entry(0xfe, 0x41); Entry(0xff, 0x1c);
  }
}

module AesVectors {
  import opened GaloisField
  import opened Columns4
  import opened Fips197
  import opened SBoxTable

  // ----- the round constants, section 5.2

  function PowerOf(b: bv8, n: nat): bv8 {
    if n == 0 then 1 else Mul(PowerOf(b, n - 1), b)
  }

  /** The i-th round constant is the i-th power of {02} in the field, where the first is its one. */
  lemma {:induction false} RconIsPower(i: nat, y: bv8)
    ensures RconByte(i) == PowerOf(2, i) && Mul(y, RconByte(0)) == y
  {
    MulByConstants(y);
    hide Mul, Xtime;
    if i > 0 {
      RconIsPower(i - 1, y);
      MulByConstants(RconByte(i - 1));
    }
  }

  lemma RconValues()
    ensures RconByte(0) == 0x01 && RconByte(1) == 0x02 && RconByte(2) == 0x04 && RconByte(3) == 0x08
    ensures RconByte(4) == 0x10 && RconByte(5) == 0x20 && RconByte(6) == 0x40 && RconByte(7) == 0x80
    ensures RconByte(8) == 0x1b && RconByte(9) == 0x36
  {
    assert RconByte(3) == 0x08;
    assert RconByte(5) == 0x20;
    assert RconByte(7) == 0x80;
    assert RconByte(8) == 0x1b;
    assert RconByte(9) == 0x36;
  }

  /** Figure 4: the number of rounds. */
  lemma RoundCounts(key: seq<Col>)
    requires ValidKey(key)
    ensures Rounds(key) == if |key| == 4 then 10 else if |key| == 6 then 12 else 14
  {
  }

  // ----- the columns of MixColumns on bytes that are known

  function Mixed(c: Col): Col {
    Col(Sum4(Xtime(c.b0), Triple(c.b1), c.b2, c.b3), Sum4(c.b0, Xtime(c.b1), Triple(c.b2), c.b3),
        Sum4(c.b0, c.b1, Xtime(c.b2), Triple(c.b3)), Sum4(Triple(c.b0), c.b1, c.b2, Xtime(c.b3)))
  }

  lemma MixIs(c: Col, d: Col)
    requires Mixed(c) == d
    ensures MixCol(c) == d
  {
    hide Mul, Xtime, Add, Sum4;
    MulByConstants(c.b0);
    MulByConstants(c.b1);
    MulByConstants(c.b2);
    MulByConstants(c.b3);
  }

  const KEY_A1 := [Col(0x2b, 0x7e, 0x15, 0x16), Col(0x28, 0xae, 0xd2, 0xa6),
                  Col(0xab, 0xf7, 0x15, 0x88), Col(0x09, 0xcf, 0x4f, 0x3c)]

  /** The expanded key of appendix A.1, 128 bits: its first half. */
  lemma ExpandedA1First()
    ensures KeyWord(KEY_A1, 4) == Col(0xa0, 0xfa, 0xfe, 0x17) && KeyWord(KEY_A1, 5) == Col(0x88, 0x54, 0x2c, 0xb1)
    ensures KeyWord(KEY_A1, 6) == Col(0x23, 0xa3, 0x39, 0x39) && KeyWord(KEY_A1, 7) == Col(0x2a, 0x6c, 0x76, 0x05)
    ensures KeyWord(KEY_A1, 8) == Col(0xf2, 0xc2, 0x95, 0xf2) && KeyWord(KEY_A1, 9) == Col(0x7a, 0x96, 0xb9, 0x43)
    ensures KeyWord(KEY_A1, 10) == Col(0x59, 0x35, 0x80, 0x7a) && KeyWord(KEY_A1, 11) == Col(0x73, 0x59, 0xf6, 0x7f)
    ensures KeyWord(KEY_A1, 12) == Col(0x3d, 0x80, 0x47, 0x7d) && KeyWord(KEY_A1, 13) == Col(0x47, 0x16, 0xfe, 0x3e)
    ensures KeyWord(KEY_A1, 14) == Col(0x1e, 0x23, 0x7e, 0x44) && KeyWord(KEY_A1, 15) == Col(0x6d, 0x7a, 0x88, 0x3b)
    ensures KeyWord(KEY_A1, 16) == Col(0xef, 0x44, 0xa5, 0x41) && KeyWord(KEY_A1, 17) == Col(0xa8, 0x52, 0x5b, 0x7f)
    ensures KeyWord(KEY_A1, 18) == Col(0xb6, 0x71, 0x25, 0x3b) && KeyWord(KEY_A1, 19) == Col(0xdb, 0x0b, 0xad, 0x00)
    ensures KeyWord(KEY_A1, 20) == Col(0xd4, 0xd1, 0xc6, 0xf8) && KeyWord(KEY_A1, 21) == Col(0x7c, 0x83, 0x9d, 0x87)
    ensures KeyWord(KEY_A1, 22) == Col(0xca, 0xf2, 0xb8, 0xbc) && KeyWord(KEY_A1, 23) == Col(0x11, 0xf9, 0x15, 0xbc)
  {
    hide SBox, RconByte;
    RconValues();
    Row0(); Row2(); Row3(); Row4(); Row5(); Row6(); Row7(); Row8();
    RowA(); RowC(); RowD(); RowF();
  }

  /** The expanded key of appendix A.1, 128 bits: the rest. */
  lemma ExpandedA1Rest()
    ensures KeyWord(KEY_A1, 24) == Col(0x6d, 0x88, 0xa3, 0x7a) && KeyWord(KEY_A1, 25) == Col(0x11, 0x0b, 0x3e, 0xfd)
    ensures KeyWord(KEY_A1, 26) == Col(0xdb, 0xf9, 0x86, 0x41) && KeyWord(KEY_A1, 27) == Col(0xca, 0x00, 0x93, 0xfd)
    ensures KeyWord(KEY_A1, 28) == Col(0x4e, 0x54, 0xf7, 0x0e) && KeyWord(KEY_A1, 29) == Col(0x5f, 0x5f, 0xc9, 0xf3)
    ensures KeyWord(KEY_A1, 30) == Col(0x84, 0xa6, 0x4f, 0xb2) && KeyWord(KEY_A1, 31) == Col(0x4e, 0xa6, 0xdc, 0x4f)
    ensures KeyWord(KEY_A1, 32) == Col(0xea, 0xd2, 0x73, 0x21) && KeyWord(KEY_A1, 33) == Col(0xb5, 0x8d, 0xba, 0xd2)
    ensures KeyWord(KEY_A1, 34) == Col(0x31, 0x2b, 0xf5, 0x60) && KeyWord(KEY_A1, 35) == Col(0x7f, 0x8d, 0x29, 0x2f)
    ensures KeyWord(KEY_A1, 36) == Col(0xac, 0x77, 0x66, 0xf3) && KeyWord(KEY_A1, 37) == Col(0x19, 0xfa, 0xdc, 0x21)
    ensures KeyWord(KEY_A1, 38) == Col(0x28, 0xd1, 0x29, 0x41) && KeyWord(KEY_A1, 39) == Col(0x57, 0x5c, 0x00, 0x6e)
    ensures KeyWord(KEY_A1, 40) == Col(0xd0, 0x14, 0xf9, 0xa8) && KeyWord(KEY_A1, 41) == Col(0xc9, 0xee, 0x25, 0x89)
    ensures KeyWord(KEY_A1, 42) == Col(0xe1, 0x3f, 0x0c, 0xc8) && KeyWord(KEY_A1, 43) == Col(0xb6, 0x63, 0x0c, 0xa6)
  {
    hide SBox, RconByte;
    RconValues();
    Row0(); Row1(); Row2(); Row4(); Row5(); Row6(); Row7(); Row8();
    Row9(); RowA(); RowB(); RowC(); RowD(); RowF();
    ExpandedA1First();
  }

  const KEY_C1 := [Col(0x00, 0x01, 0x02, 0x03), Col(0x04, 0x05, 0x06, 0x07),
                  Col(0x08, 0x09, 0x0a, 0x0b), Col(0x0c, 0x0d, 0x0e, 0x0f)]

  /** The key of the example of appendix C.1: its first half. */
  lemma ExpandedC1First()
    ensures KeyWord(KEY_C1, 4) == Col(0xd6, 0xaa, 0x74, 0xfd) && KeyWord(KEY_C1, 5) == Col(0xd2, 0xaf, 0x72, 0xfa)
    ensures KeyWord(KEY_C1, 6) == Col(0xda, 0xa6, 0x78, 0xf1) && KeyWord(KEY_C1, 7) == Col(0xd6, 0xab, 0x76, 0xfe)
    ensures KeyWord(KEY_C1, 8) == Col(0xb6, 0x92, 0xcf, 0x0b) && KeyWord(KEY_C1, 9) == Col(0x64, 0x3d, 0xbd, 0xf1)
    ensures KeyWord(KEY_C1, 10) == Col(0xbe, 0x9b, 0xc5, 0x00) && KeyWord(KEY_C1, 11) == Col(0x68, 0x30, 0xb3, 0xfe)
    ensures KeyWord(KEY_C1, 12) == Col(0xb6, 0xff, 0x74, 0x4e) && KeyWord(KEY_C1, 13) == Col(0xd2, 0xc2, 0xc9, 0xbf)
    ensures KeyWord(KEY_C1, 14) == Col(0x6c, 0x59, 0x0c, 0xbf) && KeyWord(KEY_C1, 15) == Col(0x04, 0x69, 0xbf, 0x41)
    ensures KeyWord(KEY_C1, 16) == Col(0x47, 0xf7, 0xf7, 0xbc) && KeyWord(KEY_C1, 17) == Col(0x95, 0x35, 0x3e, 0x03)
    ensures KeyWord(KEY_C1, 18) == Col(0xf9, 0x6c, 0x32, 0xbc) && KeyWord(KEY_C1, 19) == Col(0xfd, 0x05, 0x8d, 0xfd)
    ensures KeyWord(KEY_C1, 20) == Col(0x3c, 0xaa, 0xa3, 0xe8) && KeyWord(KEY_C1, 21) == Col(0xa9, 0x9f, 0x9d, 0xeb)
    ensures KeyWord(KEY_C1, 22) == Col(0x50, 0xf3, 0xaf, 0x57) && KeyWord(KEY_C1, 23) == Col(0xad, 0xf6, 0x22, 0xaa)
  {
    hide SBox, RconByte;
    RconValues();
    Row0(); Row3(); Row4(); Row6(); Row7(); Row8(); RowA(); RowB();
    RowD(); RowF();
  }

  /** The key of the example of appendix C.1: the rest. */
  lemma ExpandedC1Rest()
    ensures KeyWord(KEY_C1, 24) == Col(0x5e, 0x39, 0x0f, 0x7d) && KeyWord(KEY_C1, 25) == Col(0xf7, 0xa6, 0x92, 0x96)
    ensures KeyWord(KEY_C1, 26) == Col(0xa7, 0x55, 0x3d, 0xc1) && KeyWord(KEY_C1, 27) == Col(0x0a, 0xa3, 0x1f, 0x6b)
    ensures KeyWord(KEY_C1, 28) == Col(0x14, 0xf9, 0x70, 0x1a) && KeyWord(KEY_C1, 29) == Col(0xe3, 0x5f, 0xe2, 0x8c)
    ensures KeyWord(KEY_C1, 30) == Col(0x44, 0x0a, 0xdf, 0x4d) && KeyWord(KEY_C1, 31) == Col(0x4e, 0xa9, 0xc0, 0x26)
    ensures KeyWord(KEY_C1, 32) == Col(0x47, 0x43, 0x87, 0x35) && KeyWord(KEY_C1, 33) == Col(0xa4, 0x1c, 0x65, 0xb9)
    ensures KeyWord(KEY_C1, 34) == Col(0xe0, 0x16, 0xba, 0xf4) && KeyWord(KEY_C1, 35) == Col(0xae, 0xbf, 0x7a, 0xd2)
    ensures KeyWord(KEY_C1, 36) == Col(0x54, 0x99, 0x32, 0xd1) && KeyWord(KEY_C1, 37) == Col(0xf0, 0x85, 0x57, 0x68)
    ensures KeyWord(KEY_C1, 38) == Col(0x10, 0x93, 0xed, 0x9c) && KeyWord(KEY_C1, 39) == Col(0xbe, 0x2c, 0x97, 0x4e)
    ensures KeyWord(KEY_C1, 40) == Col(0x13, 0x11, 0x1d, 0x7f) && KeyWord(KEY_C1, 41) == Col(0xe3, 0x94, 0x4a, 0x17)
    ensures KeyWord(KEY_C1, 42) == Col(0xf3, 0x07, 0xa7, 0x8b) && KeyWord(KEY_C1, 43) == Col(0x4d, 0x2b, 0x30, 0xc5)
  {
    hide SBox, RconByte;
    RconValues();
    Row0(); Row1(); Row2(); Row4(); Row6(); Row7(); Row9(); RowA();
    RowB(); RowC(); RowD(); RowF();
    ExpandedC1First();
  }

  const KEY_A2 := [Col(0x8e, 0x73, 0xb0, 0xf7), Col(0xda, 0x0e, 0x64, 0x52),
                  Col(0xc8, 0x10, 0xf3, 0x2b), Col(0x80, 0x90, 0x79, 0xe5),
                  Col(0x62, 0xf8, 0xea, 0xd2), Col(0x52, 0x2c, 0x6b, 0x7b)]

  /** The expanded key of appendix A.2, 192 bits: its first half. */
  lemma ExpandedA2First()
    ensures KeyWord(KEY_A2, 6) == Col(0xfe, 0x0c, 0x91, 0xf7) && KeyWord(KEY_A2, 7) == Col(0x24, 0x02, 0xf5, 0xa5)
    ensures KeyWord(KEY_A2, 8) == Col(0xec, 0x12, 0x06, 0x8e) && KeyWord(KEY_A2, 9) == Col(0x6c, 0x82, 0x7f, 0x6b)
    ensures KeyWord(KEY_A2, 10) == Col(0x0e, 0x7a, 0x95, 0xb9) && KeyWord(KEY_A2, 11) == Col(0x5c, 0x56, 0xfe, 0xc2)
    ensures KeyWord(KEY_A2, 12) == Col(0x4d, 0xb7, 0xb4, 0xbd) && KeyWord(KEY_A2, 13) == Col(0x69, 0xb5, 0x41, 0x18)
    ensures KeyWord(KEY_A2, 14) == Col(0x85, 0xa7, 0x47, 0x96) && KeyWord(KEY_A2, 15) == Col(0xe9, 0x25, 0x38, 0xfd)
    ensures KeyWord(KEY_A2, 16) == Col(0xe7, 0x5f, 0xad, 0x44) && KeyWord(KEY_A2, 17) == Col(0xbb, 0x09, 0x53, 0x86)
    ensures KeyWord(KEY_A2, 18) == Col(0x48, 0x5a, 0xf0, 0x57) && KeyWord(KEY_A2, 19) == Col(0x21, 0xef, 0xb1, 0x4f)
    ensures KeyWord(KEY_A2, 20) == Col(0xa4, 0x48, 0xf6, 0xd9) && KeyWord(KEY_A2, 21) == Col(0x4d, 0x6d, 0xce, 0x24)
    ensures KeyWord(KEY_A2, 22) == Col(0xaa, 0x32, 0x63, 0x60) && KeyWord(KEY_A2, 23) == Col(0x11, 0x3b, 0x30, 0xe6)
    ensures KeyWord(KEY_A2, 24) == Col(0xa2, 0x5e, 0x7e, 0xd5) && KeyWord(KEY_A2, 25) == Col(0x83, 0xb1, 0xcf, 0x9a)
    ensures KeyWord(KEY_A2, 26) == Col(0x27, 0xf9, 0x39, 0x43) && KeyWord(KEY_A2, 27) == Col(0x6a, 0x94, 0xf7, 0x67)
    ensures KeyWord(KEY_A2, 28) == Col(0xc0, 0xa6, 0x94, 0x07)
  {
    hide SBox, RconByte;
    RconValues();
    Row0(); Row1(); Row2(); Row3(); Row5(); Row6(); Row7(); Row8();
    RowB(); RowC(); RowE(); RowF();
  }

  /** The expanded key of appendix A.2, 192 bits: the rest. */
  lemma ExpandedA2Rest()
    ensures KeyWord(KEY_A2, 29) == Col(0xd1, 0x9d, 0xa4, 0xe1) && KeyWord(KEY_A2, 30) == Col(0xec, 0x17, 0x86, 0xeb)
    ensures KeyWord(KEY_A2, 31) == Col(0x6f, 0xa6, 0x49, 0x71) && KeyWord(KEY_A2, 32) == Col(0x48, 0x5f, 0x70, 0x32)
    ensures KeyWord(KEY_A2, 33) == Col(0x22, 0xcb, 0x87, 0x55) && KeyWord(KEY_A2, 34) == Col(0xe2, 0x6d, 0x13, 0x52)
    ensures KeyWord(KEY_A2, 35) == Col(0x33, 0xf0, 0xb7, 0xb3) && KeyWord(KEY_A2, 36) == Col(0x40, 0xbe, 0xeb, 0x28)
    ensures KeyWord(KEY_A2, 37) == Col(0x2f, 0x18, 0xa2, 0x59) && KeyWord(KEY_A2, 38) == Col(0x67, 0x47, 0xd2, 0x6b)
    ensures KeyWord(KEY_A2, 39) == Col(0x45, 0x8c, 0x55, 0x3e) && KeyWord(KEY_A2, 40) == Col(0xa7, 0xe1, 0x46, 0x6c)
    ensures KeyWord(KEY_A2, 41) == Col(0x94, 0x11, 0xf1, 0xdf) && KeyWord(KEY_A2, 42) == Col(0x82, 0x1f, 0x75, 0x0a)
    ensures KeyWord(KEY_A2, 43) == Col(0xad, 0x07, 0xd7, 0x53) && KeyWord(KEY_A2, 44) == Col(0xca, 0x40, 0x05, 0x38)
    ensures KeyWord(KEY_A2, 45) == Col(0x8f, 0xcc, 0x50, 0x06) && KeyWord(KEY_A2, 46) == Col(0x28, 0x2d, 0x16, 0x6a)
    ensures KeyWord(KEY_A2, 47) == Col(0xbc, 0x3c, 0xe7, 0xb5) && KeyWord(KEY_A2, 48) == Col(0xe9, 0x8b, 0xa0, 0x6f)
    ensures KeyWord(KEY_A2, 49) == Col(0x44, 0x8c, 0x77, 0x3c) && KeyWord(KEY_A2, 50) == Col(0x8e, 0xcc, 0x72, 0x04)
    ensures KeyWord(KEY_A2, 51) == Col(0x01, 0x00, 0x22, 0x02)
  {
    hide SBox, RconByte;
    RconValues();
    Row1(); Row3(); Row9(); RowA(); RowB(); RowD(); RowE(); RowF();
    ExpandedA2First();
  }

  const KEY_A3 := [Col(0x60, 0x3d, 0xeb, 0x10), Col(0x15, 0xca, 0x71, 0xbe),
                  Col(0x2b, 0x73, 0xae, 0xf0), Col(0x85, 0x7d, 0x77, 0x81),
                  Col(0x1f, 0x35, 0x2c, 0x07), Col(0x3b, 0x61, 0x08, 0xd7),
                  Col(0x2d, 0x98, 0x10, 0xa3), Col(0x09, 0x14, 0xdf, 0xf4)]

  /** The expanded key of appendix A.3, 256 bits: its first half. */
  lemma ExpandedA3First()
    ensures KeyWord(KEY_A3, 8) == Col(0x9b, 0xa3, 0x54, 0x11) && KeyWord(KEY_A3, 9) == Col(0x8e, 0x69, 0x25, 0xaf)
    ensures KeyWord(KEY_A3, 10) == Col(0xa5, 0x1a, 0x8b, 0x5f) && KeyWord(KEY_A3, 11) == Col(0x20, 0x67, 0xfc, 0xde)
    ensures KeyWord(KEY_A3, 12) == Col(0xa8, 0xb0, 0x9c, 0x1a) && KeyWord(KEY_A3, 13) == Col(0x93, 0xd1, 0x94, 0xcd)
    ensures KeyWord(KEY_A3, 14) == Col(0xbe, 0x49, 0x84, 0x6e) && KeyWord(KEY_A3, 15) == Col(0xb7, 0x5d, 0x5b, 0x9a)
    ensures KeyWord(KEY_A3, 16) == Col(0xd5, 0x9a, 0xec, 0xb8) && KeyWord(KEY_A3, 17) == Col(0x5b, 0xf3, 0xc9, 0x17)
    ensures KeyWord(KEY_A3, 18) == Col(0xfe, 0xe9, 0x42, 0x48) && KeyWord(KEY_A3, 19) == Col(0xde, 0x8e, 0xbe, 0x96)
    ensures KeyWord(KEY_A3, 20) == Col(0xb5, 0xa9, 0x32, 0x8a) && KeyWord(KEY_A3, 21) == Col(0x26, 0x78, 0xa6, 0x47)
    ensures KeyWord(KEY_A3, 22) == Col(0x98, 0x31, 0x22, 0x29) && KeyWord(KEY_A3, 23) == Col(0x2f, 0x6c, 0x79, 0xb3)
    ensures KeyWord(KEY_A3, 24) == Col(0x81, 0x2c, 0x81, 0xad) && KeyWord(KEY_A3, 25) == Col(0xda, 0xdf, 0x48, 0xba)
    ensures KeyWord(KEY_A3, 26) == Col(0x24, 0x36, 0x0a, 0xf2) && KeyWord(KEY_A3, 27) == Col(0xfa, 0xb8, 0xb4, 0x64)
    ensures KeyWord(KEY_A3, 28) == Col(0x98, 0xc5, 0xbf, 0xc9) && KeyWord(KEY_A3, 29) == Col(0xbe, 0xbd, 0x19, 0x8e)
    ensures KeyWord(KEY_A3, 30) == Col(0x26, 0x8c, 0x3b, 0xa7) && KeyWord(KEY_A3, 31) == Col(0x09, 0xe0, 0x42, 0x14)
    ensures KeyWord(KEY_A3, 32) == Col(0x68, 0x00, 0x7b, 0xac) && KeyWord(KEY_A3, 33) == Col(0xb2, 0xdf, 0x33, 0x16)
  {
    hide SBox, RconByte;
    RconValues();
    Row0(); Row1(); Row2(); Row4(); Row5(); Row6(); Row7(); Row8();
    Row9(); RowB(); RowD(); RowE(); RowF();
  }

  /** The expanded key of appendix A.3, 256 bits: the rest. */
  lemma ExpandedA3Rest()
    ensures KeyWord(KEY_A3, 34) == Col(0x96, 0xe9, 0x39, 0xe4) && KeyWord(KEY_A3, 35) == Col(0x6c, 0x51, 0x8d, 0x80)
    ensures KeyWord(KEY_A3, 36) == Col(0xc8, 0x14, 0xe2, 0x04) && KeyWord(KEY_A3, 37) == Col(0x76, 0xa9, 0xfb, 0x8a)
    ensures KeyWord(KEY_A3, 38) == Col(0x50, 0x25, 0xc0, 0x2d) && KeyWord(KEY_A3, 39) == Col(0x59, 0xc5, 0x82, 0x39)
    ensures KeyWord(KEY_A3, 40) == Col(0xde, 0x13, 0x69, 0x67) && KeyWord(KEY_A3, 41) == Col(0x6c, 0xcc, 0x5a, 0x71)
    ensures KeyWord(KEY_A3, 42) == Col(0xfa, 0x25, 0x63, 0x95) && KeyWord(KEY_A3, 43) == Col(0x96, 0x74, 0xee, 0x15)
    ensures KeyWord(KEY_A3, 44) == Col(0x58, 0x86, 0xca, 0x5d) && KeyWord(KEY_A3, 45) == Col(0x2e, 0x2f, 0x31, 0xd7)
    ensures KeyWord(KEY_A3, 46) == Col(0x7e, 0x0a, 0xf1, 0xfa) && KeyWord(KEY_A3, 47) == Col(0x27, 0xcf, 0x73, 0xc3)
    ensures KeyWord(KEY_A3, 48) == Col(0x74, 0x9c, 0x47, 0xab) && KeyWord(KEY_A3, 49) == Col(0x18, 0x50, 0x1d, 0xda)
    ensures KeyWord(KEY_A3, 50) == Col(0xe2, 0x75, 0x7e, 0x4f) && KeyWord(KEY_A3, 51) == Col(0x74, 0x01, 0x90, 0x5a)
    ensures KeyWord(KEY_A3, 52) == Col(0xca, 0xfa, 0xaa, 0xe3) && KeyWord(KEY_A3, 53) == Col(0xe4, 0xd5, 0x9b, 0x34)
    ensures KeyWord(KEY_A3, 54) == Col(0x9a, 0xdf, 0x6a, 0xce) && KeyWord(KEY_A3, 55) == Col(0xbd, 0x10, 0x19, 0x0d)
    ensures KeyWord(KEY_A3, 56) == Col(0xfe, 0x48, 0x90, 0xd1) && KeyWord(KEY_A3, 57) == Col(0xe6, 0x18, 0x8d, 0x0b)
    ensures KeyWord(KEY_A3, 58) == Col(0x04, 0x6d, 0xf3, 0x44) && KeyWord(KEY_A3, 59) == Col(0x70, 0x6c, 0x63, 0x1e)
  {
    hide SBox, RconByte;
    RconValues();
    Row0(); Row1(); Row2(); Row3(); Row5(); Row6(); Row7(); Row8();
    Row9(); RowB(); RowC(); RowE();
    ExpandedA3First();
  }

  const PLAIN := State(Col(0x00, 0x11, 0x22, 0x33), Col(0x44, 0x55, 0x66, 0x77),
                     Col(0x88, 0x99, 0xaa, 0xbb), Col(0xcc, 0xdd, 0xee, 0xff))

  lemma C1Start()
    ensures CipherState(KEY_C1, PLAIN, 0) ==
              State(Col(0x00, 0x10, 0x20, 0x30), Col(0x40, 0x50, 0x60, 0x70),
                    Col(0x80, 0x90, 0xa0, 0xb0), Col(0xc0, 0xd0, 0xe0, 0xf0))
  {
  }

  lemma C1Round1()
    ensures CipherState(KEY_C1, PLAIN, 1) ==
              State(Col(0x89, 0xd8, 0x10, 0xe8), Col(0x85, 0x5a, 0xce, 0x68),
                    Col(0x2d, 0x18, 0x43, 0xd8), Col(0xcb, 0x12, 0x8f, 0xe4))
  {
    hide SBox, KeyWord, MixCol;
    Row0(); Row1(); Row2(); Row3(); Row4(); Row5(); Row6(); Row7();
    Row8(); Row9(); RowA(); RowB(); RowC(); RowD(); RowE(); RowF();
    C1Start();
    MixIs(Col(0x63, 0x53, 0xe0, 0x8c), Col(0x5f, 0x72, 0x64, 0x15));
    MixIs(Col(0x09, 0x60, 0xe1, 0x04), Col(0x57, 0xf5, 0xbc, 0x92));
    MixIs(Col(0xcd, 0x70, 0xb7, 0x51), Col(0xf7, 0xbe, 0x3b, 0x29));
    MixIs(Col(0xba, 0xca, 0xd0, 0xe7), Col(0x1d, 0xb9, 0xf9, 0x1a));
    ExpandedC1First();
  }

  lemma C1Round2()
    ensures CipherState(KEY_C1, PLAIN, 2) ==
              State(Col(0x49, 0x15, 0x59, 0x8f), Col(0x55, 0xe5, 0xd7, 0xa0),
                    Col(0xda, 0xca, 0x94, 0xfa), Col(0x1f, 0x0a, 0x63, 0xf7))
  {
    hide SBox, KeyWord, MixCol;
    Row1(); Row2(); Row4(); Row5(); Row6(); Row8(); RowC(); RowD();
    RowE();
    C1Round1();
    MixIs(Col(0xa7, 0xbe, 0x1a, 0x69), Col(0xff, 0x87, 0x96, 0x84));
    MixIs(Col(0x97, 0xad, 0x73, 0x9b), Col(0x31, 0xd8, 0x6a, 0x51));
    MixIs(Col(0xd8, 0xc9, 0xca, 0x45), Col(0x64, 0x51, 0x51, 0xfa));
    MixIs(Col(0x1f, 0x61, 0x8b, 0x61), Col(0x77, 0x3a, 0xd0, 0x09));
    ExpandedC1First();
  }

  lemma C1Round3()
    ensures CipherState(KEY_C1, PLAIN, 3) ==
              State(Col(0xfa, 0x63, 0x6a, 0x28), Col(0x25, 0xb3, 0x39, 0xc9),
                    Col(0x40, 0x66, 0x8a, 0x31), Col(0x57, 0x24, 0x4d, 0x17))
  {
    hide SBox, KeyWord, MixCol;
    Row0(); Row1(); Row4(); Row5(); Row6(); Row8(); Row9(); RowA();
    RowC(); RowD(); RowE(); RowF();
    C1Round2();
    MixIs(Col(0x3b, 0xd9, 0x22, 0x68), Col(0x4c, 0x9c, 0x1e, 0x66));
    MixIs(Col(0xfc, 0x74, 0xfb, 0x73), Col(0xf7, 0x71, 0xf0, 0x76));
    MixIs(Col(0x57, 0x67, 0xcb, 0xe0), Col(0x2c, 0x3f, 0x86, 0x8e));
    MixIs(Col(0xc0, 0x59, 0x0e, 0x2d), Col(0x53, 0x4d, 0xf2, 0x56));
    ExpandedC1First();
  }

  lemma C1Round4()
    ensures CipherState(KEY_C1, PLAIN, 4) ==
              State(Col(0x24, 0x72, 0x40, 0x23), Col(0x69, 0x66, 0xb3, 0xfa),
                    Col(0x6e, 0xd2, 0x75, 0x32), Col(0x88, 0x42, 0x5b, 0x6c))
  {
    hide SBox, KeyWord, MixCol;
    Row1(); Row2(); Row3(); Row4(); Row5(); Row6(); Row8(); RowB();
    RowC(); RowF();
    C1Round3();
    MixIs(Col(0x2d, 0x6d, 0x7e, 0xf0), Col(0x63, 0x85, 0xb7, 0x9f));
    MixIs(Col(0x3f, 0x33, 0xe3, 0x34), Col(0xfc, 0x53, 0x8d, 0xf9));
    MixIs(Col(0x09, 0x36, 0x02, 0xdd), Col(0x97, 0xbe, 0x47, 0x8e));
    MixIs(Col(0x5b, 0xfb, 0x12, 0xc7), Col(0x75, 0x47, 0xd6, 0x91));
    ExpandedC1First();
  }

  lemma C1Round5()
    ensures CipherState(KEY_C1, PLAIN, 5) ==
              State(Col(0xc8, 0x16, 0x77, 0xbc), Col(0x9b, 0x7a, 0xc9, 0x3b),
                    Col(0x25, 0x02, 0x79, 0x92), Col(0xb0, 0x26, 0x19, 0x96))
  {
    hide SBox, KeyWord, MixCol;
    Row2(); Row3(); Row4(); Row5(); Row6(); Row7(); Row8(); RowB();
    RowD(); RowF();
    C1Round4();
    MixIs(Col(0x36, 0x33, 0x9d, 0x50), Col(0xf4, 0xbc, 0xd4, 0x54));
    MixIs(Col(0xf9, 0xb5, 0x39, 0x26), Col(0x32, 0xe5, 0x54, 0xd0));
    MixIs(Col(0x9f, 0x2c, 0x09, 0x2d), Col(0x75, 0xf1, 0xd6, 0xc5));
    MixIs(Col(0xc4, 0x40, 0x6d, 0x23), Col(0x1d, 0xd0, 0x3b, 0x3c));
    ExpandedC1First();
  }

  lemma C1Round6()
    ensures CipherState(KEY_C1, PLAIN, 6) ==
              State(Col(0xc6, 0x2f, 0xe1, 0x09), Col(0xf7, 0x5e, 0xed, 0xc3),
                    Col(0xcc, 0x79, 0x39, 0x5d), Col(0x84, 0xf9, 0xcf, 0x5d))
  {
    hide SBox, KeyWord, MixCol;
    Row0(); Row1(); Row2(); Row3(); Row7(); Row9(); RowB(); RowC();
    C1Round5();
    MixIs(Col(0xe8, 0xda, 0xb6, 0x90), Col(0x98, 0x16, 0xee, 0x74));
    MixIs(Col(0x14, 0x77, 0xd4, 0x65), Col(0x00, 0xf8, 0x7f, 0x55));
    MixIs(Col(0x3f, 0xf7, 0xf5, 0xe2), Col(0x6b, 0x2c, 0x04, 0x9c));
    MixIs(Col(0xe7, 0x47, 0xdd, 0x4f), Col(0x8e, 0x5a, 0xd0, 0x36));
    ExpandedC1First();
    ExpandedC1Rest();
  }

  lemma C1Round7()
    ensures CipherState(KEY_C1, PLAIN, 7) ==
              State(Col(0xd1, 0x87, 0x6c, 0x0f), Col(0x79, 0xc4, 0x30, 0x0a),
                    Col(0xb4, 0x55, 0x94, 0xad), Col(0xd6, 0x6f, 0xf4, 0x1f))
  {
    hide SBox, KeyWord, MixCol;
    Row0(); Row2(); Row3(); Row5(); Row7(); Row8(); RowC(); RowE();
    RowF();
    C1Round6();
    MixIs(Col(0xb4, 0x58, 0x12, 0x4c), Col(0xc5, 0x7e, 0x1c, 0x15));
    MixIs(Col(0x68, 0xb6, 0x8a, 0x01), Col(0x9a, 0x9b, 0xd2, 0x86));
    MixIs(Col(0x4b, 0x99, 0xf8, 0x2e), Col(0xf0, 0x5f, 0x4b, 0xe0));
    MixIs(Col(0x5f, 0x15, 0x55, 0x4c), Col(0x98, 0xc6, 0x34, 0x39));
    ExpandedC1First();
    ExpandedC1Rest();
  }

  lemma C1Round8()
    ensures CipherState(KEY_C1, PLAIN, 8) ==
              State(Col(0xfd, 0xe3, 0xba, 0xd2), Col(0x05, 0xe5, 0xd0, 0xd7),
                    Col(0x35, 0x47, 0x96, 0x4e), Col(0xf1, 0xfe, 0x37, 0xf1))
  {
    hide SBox, KeyWord, MixCol;
    Row0(); Row1(); Row3(); Row5(); Row6(); Row7(); Row8(); Row9();
    RowA(); RowB(); RowC(); RowD(); RowF();
    C1Round7();
    MixIs(Col(0x3e, 0x1c, 0x22, 0xc0), Col(0xba, 0xa0, 0x3d, 0xe7));
    MixIs(Col(0xb6, 0xfc, 0xbf, 0x76), Col(0xa1, 0xf9, 0xb5, 0x6e));
    MixIs(Col(0x8d, 0xa8, 0x50, 0x67), Col(0xd5, 0x51, 0x2c, 0xba));
    MixIs(Col(0xf6, 0x17, 0x04, 0x95), Col(0x5f, 0x41, 0x4d, 0x23));
    ExpandedC1First();
    ExpandedC1Rest();
  }

  lemma C1Round9()
    ensures CipherState(KEY_C1, PLAIN, 9) ==
              State(Col(0xbd, 0x6e, 0x7c, 0x3d), Col(0xf2, 0xb5, 0x77, 0x9e),
                    Col(0x0b, 0x61, 0x21, 0x6e), Col(0x8b, 0x10, 0xb6, 0x89))
  {
    hide SBox, KeyWord, MixCol;
    Row0(); Row3(); Row4(); Row9(); RowB(); RowD(); RowE(); RowF();
    C1Round8();
    MixIs(Col(0x54, 0xd9, 0x90, 0xa1), Col(0xe9, 0xf7, 0x4e, 0xec));
    MixIs(Col(0x6b, 0xa0, 0x9a, 0xb5), Col(0x02, 0x30, 0x20, 0xf6));
    MixIs(Col(0x96, 0xbb, 0xf4, 0x0e), Col(0x1b, 0xf2, 0xcc, 0xf2));
    MixIs(Col(0xa1, 0x11, 0x70, 0x2f), Col(0x35, 0x3c, 0x21, 0xc7));
    ExpandedC1First();
    ExpandedC1Rest();
  }

  /** The cipher example of appendix C.1. */
  lemma CipherExample()
    ensures Cipher(KEY_C1, PLAIN) ==
              State(Col(0x69, 0xc4, 0xe0, 0xd8), Col(0x6a, 0x7b, 0x04, 0x30),
                    Col(0xd8, 0xcd, 0xb7, 0x80), Col(0x70, 0xb4, 0xc5, 0x5a))
  {
    hide SBox, KeyWord;
    Row0(); Row1(); Row2(); Row3(); Row6(); Row7(); Row8(); Row9();
    RowB(); RowF();
    ExpandedC1Rest();
    C1Round9();
  }
}
