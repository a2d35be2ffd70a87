/** The cipher of FIPS-197 on columns of bytes, and why decryption undoes encryption. */
module Columns4 {
  import opened GaloisField

  /** Four bytes: a column of the state, a word of the key schedule, or a row of coefficients. */
  datatype Col = Col(b0: bv8, b1: bv8, b2: bv8, b3: bv8)

  datatype Matrix = Matrix(r0: Col, r1: Col, r2: Col, r3: Col)

  function Sum4(a: bv8, b: bv8, c: bv8, d: bv8): bv8 {
    Add(Add(a, b), Add(c, d))
  }

  function AddCol(a: Col, b: Col): Col {
    Col(Add(a.b0, b.b0), Add(a.b1, b.b1), Add(a.b2, b.b2), Add(a.b3, b.b3))
  }

  function Dot(k: Col, c: Col): bv8 {
    Sum4(Mul(c.b0, k.b0), Mul(c.b1, k.b1), Mul(c.b2, k.b2), Mul(c.b3, k.b3))
  }

  function Apply(m: Matrix, c: Col): Col {
    Col(Dot(m.r0, c), Dot(m.r1, c), Dot(m.r2, c), Dot(m.r3, c))
  }

  /** The row k times the matrix m. */
  function RowTimes(k: Col, m: Matrix): Col {
    Col(Sum4(Mul(m.r0.b0, k.b0), Mul(m.r1.b0, k.b1), Mul(m.r2.b0, k.b2), Mul(m.r3.b0, k.b3)),
        Sum4(Mul(m.r0.b1, k.b0), Mul(m.r1.b1, k.b1), Mul(m.r2.b1, k.b2), Mul(m.r3.b1, k.b3)),
        Sum4(Mul(m.r0.b2, k.b0), Mul(m.r1.b2, k.b1), Mul(m.r2.b2, k.b2), Mul(m.r3.b2, k.b3)),
        Sum4(Mul(m.r0.b3, k.b0), Mul(m.r1.b3, k.b1), Mul(m.r2.b3, k.b2), Mul(m.r3.b3, k.b3)))
  }

  lemma AddSum4(a: Col, b: Col)
    ensures Add(Sum4(a.b0, a.b1, a.b2, a.b3), Sum4(b.b0, b.b1, b.b2, b.b3))
            == Sum4(Add(a.b0, b.b0), Add(a.b1, b.b1), Add(a.b2, b.b2), Add(a.b3, b.b3))
  {
    hide Add;
    AddSwap(Add(a.b0, a.b1), Add(a.b2, a.b3), Add(b.b0, b.b1), Add(b.b2, b.b3));
    AddSwap(a.b0, a.b1, b.b0, b.b1);
    AddSwap(a.b2, a.b3, b.b2, b.b3);
  }

  function Total(c: Col): bv8 {
    Sum4(c.b0, c.b1, c.b2, c.b3)
  }

  /** Summing by rows or by columns is the same. */
  lemma Transpose(a: Col, b: Col, c: Col, d: Col)
    ensures Sum4(Total(a), Total(b), Total(c), Total(d))
            == Sum4(Sum4(a.b0, b.b0, c.b0, d.b0), Sum4(a.b1, b.b1, c.b1, d.b1),
                    Sum4(a.b2, b.b2, c.b2, d.b2), Sum4(a.b3, b.b3, c.b3, d.b3))
  {
    hide Add;
    AddSum4(a, b);
    AddSum4(c, d);
    AddSum4(AddCol(a, b), AddCol(c, d));
  }

  function Scale(c: Col, k: bv8): Col {
    Col(Mul(c.b0, k), Mul(c.b1, k), Mul(c.b2, k), Mul(c.b3, k))
  }

  lemma MulTotal(c: Col, k: bv8)
    ensures Mul(Total(c), k) == Total(Scale(c, k))
  {
    hide Add, Mul;
    MulLinear(Add(c.b0, c.b1), Add(c.b2, c.b3), k);
    MulLinear(c.b0, c.b1, k);
    MulLinear(c.b2, c.b3, k);
  }

  lemma MulTotalRight(y: bv8, c: Col)
    ensures Mul(y, Total(c)) == Sum4(Mul(y, c.b0), Mul(y, c.b1), Mul(y, c.b2), Mul(y, c.b3))
  {
    hide Add, Mul;
    MulLinearRight(y, Add(c.b0, c.b1), Add(c.b2, c.b3));
    MulLinearRight(y, c.b0, c.b1);
    MulLinearRight(y, c.b2, c.b3);
  }

  /** The products a row of coefficients is summed over. */
  function Products(k: Col, c: Col): Col {
    Col(Mul(c.b0, k.b0), Mul(c.b1, k.b1), Mul(c.b2, k.b2), Mul(c.b3, k.b3))
  }

  /** The contribution of one input byte, of coefficients n, to the sum weighted by k. */
  lemma OneInput(y: bv8, n: Col, k: Col)
    ensures Sum4(Mul(Mul(y, n.b0), k.b0), Mul(Mul(y, n.b1), k.b1), Mul(Mul(y, n.b2), k.b2), Mul(Mul(y, n.b3), k.b3))
            == Mul(y, Total(Products(k, n)))
  {
    hide Add, Mul;
    MulAssociates(y, n.b0, k.b0);
    MulAssociates(y, n.b1, k.b1);
    MulAssociates(y, n.b2, k.b2);
    MulAssociates(y, n.b3, k.b3);
    MulTotalRight(y, Products(k, n));
  }

  /** Applying a row after a matrix is applying their product. */
  lemma RowAfterMatrix(k: Col, m: Matrix, c: Col)
    ensures Dot(k, Apply(m, c)) == Dot(RowTimes(k, m), c)
  {
    hide Add, Mul, Sum4;
    MulTotal(Products(m.r0, c), k.b0);
    MulTotal(Products(m.r1, c), k.b1);
    MulTotal(Products(m.r2, c), k.b2);
    MulTotal(Products(m.r3, c), k.b3);
    Transpose(Scale(Products(m.r0, c), k.b0), Scale(Products(m.r1, c), k.b1),
              Scale(Products(m.r2, c), k.b2), Scale(Products(m.r3, c), k.b3));
    OneInput(c.b0, Col(m.r0.b0, m.r1.b0, m.r2.b0, m.r3.b0), k);
    OneInput(c.b1, Col(m.r0.b1, m.r1.b1, m.r2.b1, m.r3.b1), k);
    OneInput(c.b2, Col(m.r0.b2, m.r1.b2, m.r2.b2, m.r3.b2), k);
    OneInput(c.b3, Col(m.r0.b3, m.r1.b3, m.r2.b3, m.r3.b3), k);
  }

  lemma DotLinear(k: Col, c: Col, d: Col)
    ensures Dot(k, AddCol(c, d)) == Add(Dot(k, c), Dot(k, d))
  {
    hide Add, Mul;
    MulLinear(c.b0, d.b0, k.b0);
    MulLinear(c.b1, d.b1, k.b1);
    MulLinear(c.b2, d.b2, k.b2);
    MulLinear(c.b3, d.b3, k.b3);
    AddSum4(Products(k, c), Products(k, d));
  }

  lemma ApplyLinear(m: Matrix, c: Col, d: Col)
    ensures Apply(m, AddCol(c, d)) == AddCol(Apply(m, c), Apply(m, d))
  {
    hide Add, Dot;
    DotLinear(m.r0, c, d);
    DotLinear(m.r1, c, d);
    DotLinear(m.r2, c, d);
    DotLinear(m.r3, c, d);
  }
}

module Fips197 {
  import opened GaloisField
  import opened Columns4

  // ----- SubBytes, sections 5.1.1 and 5.3.2

  function RotL(x: bv8, n: bv8): bv8
    requires 1 <= n <= 7
  {
    (x << n) | (x >> (8 - n))
  }

  function Affine(x: bv8): bv8 {
    x ^ RotL(x, 1) ^ RotL(x, 2) ^ RotL(x, 3) ^ RotL(x, 4) ^ 0x63
  }

  function InvAffine(x: bv8): bv8 {
    RotL(x, 1) ^ RotL(x, 3) ^ RotL(x, 6) ^ 0x05
  }

  lemma AffineInverse(x: bv8)
    ensures InvAffine(Affine(x)) == x && Affine(InvAffine(x)) == x
  {
  }

  ghost function SBox(x: bv8): bv8 {
    Affine(Inverse(x))
  }

  ghost function InvSBox(x: bv8): bv8 {
    Inverse(InvAffine(x))
  }

  lemma SBoxInverse(x: bv8)
    ensures InvSBox(SBox(x)) == x && SBox(InvSBox(x)) == x
  {
    hide Affine, InvAffine, Inverse;
    AffineInverse(Inverse(x));
    AffineInverse(x);
    InverseInvolution(x);
    InverseInvolution(InvAffine(x));
  }

  // ----- the round steps on a state of four columns

  datatype State = State(c0: Col, c1: Col, c2: Col, c3: Col)

  ghost function SubCol(c: Col): Col {
    Col(SBox(c.b0), SBox(c.b1), SBox(c.b2), SBox(c.b3))
  }

  ghost function InvSubCol(c: Col): Col {
    Col(InvSBox(c.b0), InvSBox(c.b1), InvSBox(c.b2), InvSBox(c.b3))
  }

  ghost function SubBytes(s: State): State {
    State(SubCol(s.c0), SubCol(s.c1), SubCol(s.c2), SubCol(s.c3))
  }

  ghost function InvSubBytes(s: State): State {
    State(InvSubCol(s.c0), InvSubCol(s.c1), InvSubCol(s.c2), InvSubCol(s.c3))
  }

  /** Row r is rotated r places to the left. */
  function ShiftRows(s: State): State {
    State(Col(s.c0.b0, s.c1.b1, s.c2.b2, s.c3.b3), Col(s.c1.b0, s.c2.b1, s.c3.b2, s.c0.b3),
          Col(s.c2.b0, s.c3.b1, s.c0.b2, s.c1.b3), Col(s.c3.b0, s.c0.b1, s.c1.b2, s.c2.b3))
  }

  function InvShiftRows(s: State): State {
    State(Col(s.c0.b0, s.c3.b1, s.c2.b2, s.c1.b3), Col(s.c1.b0, s.c0.b1, s.c3.b2, s.c2.b3),
          Col(s.c2.b0, s.c1.b1, s.c0.b2, s.c3.b3), Col(s.c3.b0, s.c2.b1, s.c1.b2, s.c0.b3))
  }

  const MIX := Matrix(Col(2, 3, 1, 1), Col(1, 2, 3, 1), Col(1, 1, 2, 3), Col(3, 1, 1, 2))
  const INV_MIX := Matrix(Col(0x0e, 0x0b, 0x0d, 0x09), Col(0x09, 0x0e, 0x0b, 0x0d),
                         Col(0x0d, 0x09, 0x0e, 0x0b), Col(0x0b, 0x0d, 0x09, 0x0e))

  function MixCol(c: Col): Col {
    Apply(MIX, c)
  }

  function InvMixCol(c: Col): Col {
    Apply(INV_MIX, c)
  }

  function MixColumns(s: State): State {
    State(MixCol(s.c0), MixCol(s.c1), MixCol(s.c2), MixCol(s.c3))
  }

  function InvMixColumns(s: State): State {
    State(InvMixCol(s.c0), InvMixCol(s.c1), InvMixCol(s.c2), InvMixCol(s.c3))
  }

  function AddRoundKey(s: State, k: State): State {
    State(AddCol(s.c0, k.c0), AddCol(s.c1, k.c1), AddCol(s.c2, k.c2), AddCol(s.c3, k.c3))
  }

  // ----- each step undoes its partner

  lemma ConstantProducts(y: bv8)
    ensures Mul(y, 0x0e) == MulUnrolled(y, 0x0e) && Mul(y, 0x0b) == MulUnrolled(y, 0x0b)
    ensures Mul(y, 0x0d) == MulUnrolled(y, 0x0d) && Mul(y, 0x09) == MulUnrolled(y, 0x09)
  {
    MulUnrolls(y, 0x0e);
    MulUnrolls(y, 0x0b);
    MulUnrolls(y, 0x0d);
    MulUnrolls(y, 0x09);
  }

  lemma ProductsOfConstants()
    ensures Mul(2, 0x0e) == 0x1c && Mul(1, 0x0b) == 0x0b && Mul(1, 0x0d) == 0x0d && Mul(3, 0x09) == 0x1b
    ensures Mul(3, 0x0e) == 0x12 && Mul(2, 0x0b) == 0x16 && Mul(1, 0x09) == 0x09 && Mul(1, 0x0e) == 0x0e
    ensures Mul(3, 0x0b) == 0x1d && Mul(2, 0x0d) == 0x1a && Mul(3, 0x0d) == 0x17 && Mul(2, 0x09) == 0x12
  {
    ConstantProducts(2);
    ConstantProducts(3);
    ConstantProducts(1);
  }

  lemma InvMixTimesMix()
    ensures RowTimes(INV_MIX.r0, MIX) == Col(1, 0, 0, 0) && RowTimes(INV_MIX.r1, MIX) == Col(0, 1, 0, 0)
    ensures RowTimes(INV_MIX.r2, MIX) == Col(0, 0, 1, 0) && RowTimes(INV_MIX.r3, MIX) == Col(0, 0, 0, 1)
  {
    hide Mul;
    ProductsOfConstants();
  }

  lemma AddZero(x: bv8)
    ensures Add(x, 0) == x && Add(0, x) == x && Add(x, x) == 0
  {
  }

  lemma DotUnit(c: Col)
    ensures Dot(Col(1, 0, 0, 0), c) == c.b0 && Dot(Col(0, 1, 0, 0), c) == c.b1
    ensures Dot(Col(0, 0, 1, 0), c) == c.b2 && Dot(Col(0, 0, 0, 1), c) == c.b3
  {
    hide Mul, Add;
    MulByConstants(c.b0);
    MulByConstants(c.b1);
    MulByConstants(c.b2);
    MulByConstants(c.b3);
    MulByZero(c.b0);
    MulByZero(c.b1);
    MulByZero(c.b2);
    MulByZero(c.b3);
    AddZero(c.b0);
    AddZero(c.b1);
    AddZero(c.b2);
    AddZero(c.b3);
    AddZero(0);
  }

  lemma InvMixUndoesMix(c: Col)
    ensures InvMixCol(MixCol(c)) == c
  {
    hide Dot, RowTimes;
    InvMixTimesMix();
    RowAfterMatrix(INV_MIX.r0, MIX, c);
    RowAfterMatrix(INV_MIX.r1, MIX, c);
    RowAfterMatrix(INV_MIX.r2, MIX, c);
    RowAfterMatrix(INV_MIX.r3, MIX, c);
    DotUnit(c);
  }

  lemma AddCancels(x: bv8, k: bv8)
    ensures Add(Add(x, k), k) == x
  {
    hide Add;
    AddAssociates(x, k, k);
    AddZero(k);
    AddZero(x);
  }

  lemma AddColCancels(c: Col, k: Col)
    ensures AddCol(AddCol(c, k), k) == c
  {
    hide Add;
    AddCancels(c.b0, k.b0);
    AddCancels(c.b1, k.b1);
    AddCancels(c.b2, k.b2);
    AddCancels(c.b3, k.b3);
  }

  lemma SubColInverse(c: Col)
    ensures InvSubCol(SubCol(c)) == c
  {
    hide SBox, InvSBox;
    SBoxInverse(c.b0);
    SBoxInverse(c.b1);
    SBoxInverse(c.b2);
    SBoxInverse(c.b3);
  }

  /** The inverse steps applied to SubBytes followed by ShiftRows give the state back. */
  lemma InvShiftSub(s: State)
    ensures InvShiftRows(InvSubBytes(ShiftRows(SubBytes(s)))) == s
  {
    hide SBox, InvSBox;
    SubColInverse(s.c0);
    SubColInverse(s.c1);
    SubColInverse(s.c2);
    SubColInverse(s.c3);
  }

  lemma AddRoundKeyCancels(s: State, k: State)
    ensures AddRoundKey(AddRoundKey(s, k), k) == s
  {
    hide AddCol;
    AddColCancels(s.c0, k.c0);
    AddColCancels(s.c1, k.c1);
    AddColCancels(s.c2, k.c2);
    AddColCancels(s.c3, k.c3);
  }

  lemma InvMixOfRoundCol(c: Col, k: Col)
    ensures AddCol(InvMixCol(AddCol(MixCol(c), k)), InvMixCol(k)) == c
  {
    hide Apply, AddCol;
    ApplyLinear(INV_MIX, MixCol(c), k);
    InvMixUndoesMix(c);
    AddColCancels(c, InvMixCol(k));
  }

  lemma InvMixOfRound(s: State, k: State)
    ensures AddRoundKey(InvMixColumns(AddRoundKey(MixColumns(s), k)), InvMixColumns(k)) == s
  {
    hide Apply, AddCol;
    InvMixOfRoundCol(s.c0, k.c0);
    InvMixOfRoundCol(s.c1, k.c1);
    InvMixOfRoundCol(s.c2, k.c2);
    InvMixOfRoundCol(s.c3, k.c3);
  }

  // ----- key expansion, section 5.2

  /** The key as words; 4, 6 or 8 of them. */
  predicate ValidKey(key: seq<Col>) {
    |key| == 4 || |key| == 6 || |key| == 8
  }

  function Rounds(key: seq<Col>): nat
    requires ValidKey(key)
  {
    |key| + 6
  }

  function RotWord(c: Col): Col {
    Col(c.b1, c.b2, c.b3, c.b0)
  }

  /** The powers of x; Rcon[i] is RconByte(i - 1) followed by three zero bytes. */
  function RconByte(i: nat): bv8 {
    if i == 0 then 1 else Xtime(RconByte(i - 1))
  }

  ghost function KeyWord(key: seq<Col>, i: nat): Col
    requires ValidKey(key)
  {
    if i < |key| then key[i]
    else
      var prev := KeyWord(key, i - 1);
      var temp := if i % |key| == 0 then AddCol(SubCol(RotWord(prev)), Col(RconByte(i / |key| - 1), 0, 0, 0))
                  else if |key| > 6 && i % |key| == 4 then SubCol(prev)
                  else prev;
      AddCol(KeyWord(key, i - |key|), temp)
  }

  ghost function RoundKey(key: seq<Col>, r: nat): State
    requires ValidKey(key)
  {
    State(KeyWord(key, 4 * r), KeyWord(key, 4 * r + 1), KeyWord(key, 4 * r + 2), KeyWord(key, 4 * r + 3))
  }

  // ----- the cipher, section 5.1

  ghost function CipherRound(s: State, k: State): State {
    AddRoundKey(MixColumns(ShiftRows(SubBytes(s))), k)
  }

  /** The state after r of the rounds that mix columns. */
  ghost function CipherState(key: seq<Col>, input: State, r: nat): State
    requires ValidKey(key)
  {
    if r == 0 then AddRoundKey(input, RoundKey(key, 0))
    else CipherRound(CipherState(key, input, r - 1), RoundKey(key, r))
  }

  ghost function Cipher(key: seq<Col>, input: State): State
    requires ValidKey(key)
  {
    var nr := Rounds(key);
    AddRoundKey(ShiftRows(SubBytes(CipherState(key, input, nr - 1))), RoundKey(key, nr))
  }

  // ----- the inverse cipher, section 5.3, and the equivalent inverse cipher, section 5.3.5

  ghost function InvCipherState(key: seq<Col>, input: State, r: nat): State
    requires ValidKey(key) && r < Rounds(key)
  {
    var nr := Rounds(key);
    if r == 0 then AddRoundKey(input, RoundKey(key, nr))
    else InvMixColumns(AddRoundKey(InvSubBytes(InvShiftRows(InvCipherState(key, input, r - 1))), RoundKey(key, nr - r)))
  }

  ghost function InvCipher(key: seq<Col>, input: State): State
    requires ValidKey(key)
  {
    AddRoundKey(InvSubBytes(InvShiftRows(InvCipherState(key, input, Rounds(key) - 1))), RoundKey(key, 0))
  }

  /** Round keys of the equivalent inverse cipher, in the order they are used. */
  ghost function InvRoundKey(key: seq<Col>, r: nat): State
    requires ValidKey(key) && r <= Rounds(key)
  {
    var k := RoundKey(key, Rounds(key) - r);
    if r == 0 || r == Rounds(key) then k else InvMixColumns(k)
  }

  ghost function EqInvRound(s: State, k: State): State {
    AddRoundKey(InvMixColumns(InvShiftRows(InvSubBytes(s))), k)
  }

  ghost function EqInvState(key: seq<Col>, input: State, r: nat): State
    requires ValidKey(key) && r < Rounds(key)
  {
    if r == 0 then AddRoundKey(input, InvRoundKey(key, 0))
    else EqInvRound(EqInvState(key, input, r - 1), InvRoundKey(key, r))
  }

  ghost function EqInvCipher(key: seq<Col>, input: State): State
    requires ValidKey(key)
  {
    var nr := Rounds(key);
    AddRoundKey(InvShiftRows(InvSubBytes(EqInvState(key, input, nr - 1))), InvRoundKey(key, nr))
  }

  /** After r rounds, the equivalent inverse cipher has undone the last r rounds of the cipher. */
  lemma {:induction false} RoundsUndone(key: seq<Col>, input: State, r: nat)
    requires ValidKey(key) && r < Rounds(key)
    ensures EqInvState(key, Cipher(key, input), r)
            == ShiftRows(SubBytes(CipherState(key, input, Rounds(key) - 1 - r)))
  {
    hide SubBytes, ShiftRows, InvSubBytes, InvShiftRows, MixColumns, InvMixColumns, AddRoundKey, KeyWord;
    var nr := Rounds(key);
    if r == 0 {
      AddRoundKeyCancels(ShiftRows(SubBytes(CipherState(key, input, nr - 1))), RoundKey(key, nr));
    } else {
      RoundsUndone(key, input, r - 1);
      var before := CipherState(key, input, nr - 1 - r);
      InvShiftSub(CipherState(key, input, nr - r));
      InvMixOfRound(ShiftRows(SubBytes(before)), RoundKey(key, nr - r));
    }
  }

  /** For every key and block, decryption undoes encryption. */
  lemma DecryptionUndoesEncryption(key: seq<Col>, input: State)
    requires ValidKey(key)
    ensures EqInvCipher(key, Cipher(key, input)) == input
  {
    hide SubBytes, ShiftRows, InvSubBytes, InvShiftRows, AddRoundKey, KeyWord;
    RoundsUndone(key, input, Rounds(key) - 1);
    InvShiftSub(CipherState(key, input, 0));
    AddRoundKeyCancels(input, RoundKey(key, 0));
  }

  lemma SubShiftCommute(s: State)
    ensures InvSubBytes(InvShiftRows(s)) == InvShiftRows(InvSubBytes(s))
  {
  }

  lemma InvMixLinear(s: State, k: State)
    ensures InvMixColumns(AddRoundKey(s, k)) == AddRoundKey(InvMixColumns(s), InvMixColumns(k))
  {
    hide Apply, AddCol;
    ApplyLinear(INV_MIX, s.c0, k.c0);
    ApplyLinear(INV_MIX, s.c1, k.c1);
    ApplyLinear(INV_MIX, s.c2, k.c2);
    ApplyLinear(INV_MIX, s.c3, k.c3);
  }

  /** Section 5.3.5: with its own key schedule the equivalent inverse cipher is the inverse cipher. */
  lemma {:induction false} EqInvStateIsInvState(key: seq<Col>, input: State, r: nat)
    requires ValidKey(key) && r < Rounds(key)
    ensures EqInvState(key, input, r) == InvCipherState(key, input, r)
  {
    hide SubBytes, ShiftRows, InvSubBytes, InvShiftRows, MixColumns, InvMixColumns, AddRoundKey, KeyWord;
    if r > 0 {
      EqInvStateIsInvState(key, input, r - 1);
      var s := InvCipherState(key, input, r - 1);
      SubShiftCommute(s);
      InvMixLinear(InvShiftRows(InvSubBytes(s)), RoundKey(key, Rounds(key) - r));
    }
  }

  lemma EqInvCipherIsInvCipher(key: seq<Col>, input: State)
    requires ValidKey(key)
    ensures EqInvCipher(key, input) == InvCipher(key, input)
  {
    hide SubBytes, InvSubBytes, InvShiftRows, AddRoundKey, KeyWord;
    EqInvStateIsInvState(key, input, Rounds(key) - 1);
    SubShiftCommute(InvCipherState(key, input, Rounds(key) - 1));
  }
}
