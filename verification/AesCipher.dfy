/** Key schedule, encryption and decryption of aes.c. */
module AesCipher {
  import opened GaloisField
  import opened Columns4
  import opened Fips197
  import opened MachineWords
  import opened AesWords
  import opened AesTables

  /** The four working words X0 to X3 (or Y0 to Y3). */
  datatype Block = Block(w0: bv32, w1: bv32, w2: bv32, w3: bv32)

  function BlockOf(s: State): Block {
    Block(Word(s.c0), Word(s.c1), Word(s.c2), Word(s.c3))
  }

  // ----- exclusive ors of table entries are round steps on a column

  function ChainCol(k: Col, a: Col, b: Col, c: Col, d: Col): Col {
    AddCol(AddCol(AddCol(AddCol(k, a), b), c), d)
  }

  lemma ChainWord(k: Col, a: Col, b: Col, c: Col, d: Col)
    ensures Xor5(Word(k), Word(a), Word(b), Word(c), Word(d)) == Word(ChainCol(k, a, b, c, d))
  {
    hide Xor, Word, AddCol;
    WordXor(k, a);
    WordXor(AddCol(k, a), b);
    WordXor(AddCol(AddCol(k, a), b), c);
    WordXor(AddCol(AddCol(AddCol(k, a), b), c), d);
  }

  lemma ChainSum(k: bv8, a: bv8, b: bv8, c: bv8, d: bv8)
    ensures Add(Add(Add(Add(k, a), b), c), d) == Add(Sum4(a, b, c, d), k)
  {
    hide Add;
    AddAssociates(Add(Add(k, a), b), c, d);
    AddAssociates(k, a, b);
    AddAssociates(k, Add(a, b), Add(c, d));
    AddCommutes(k, Add(Add(a, b), Add(c, d)));
  }

  lemma ForwardColumn(c: Col, k: Col)
    ensures ChainCol(k, Rotated(ForwardCol(c.b0), 0), Rotated(ForwardCol(c.b1), 1), Rotated(ForwardCol(c.b2), 2),
                     Rotated(ForwardCol(c.b3), 3))
            == AddCol(MixCol(SubCol(c)), k)
  {
    hide Add, Mul, SBox, Sum4;
    var s := SubCol(c);
    MulByConstants(s.b0);
    MulByConstants(s.b1);
    MulByConstants(s.b2);
    MulByConstants(s.b3);
    ChainSum(k.b0, Mul(s.b0, 2), Mul(s.b1, 3), s.b2, s.b3);
    ChainSum(k.b1, s.b0, Mul(s.b1, 2), Mul(s.b2, 3), s.b3);
    ChainSum(k.b2, s.b0, s.b1, Mul(s.b2, 2), Mul(s.b3, 3));
    ChainSum(k.b3, Mul(s.b0, 3), s.b1, s.b2, Mul(s.b3, 2));
    assert Rotated(ForwardCol(c.b1), 1) == Col(Mul(s.b1, 3), Mul(s.b1, 2), s.b1, s.b1);
    assert Rotated(ForwardCol(c.b2), 2) == Col(s.b2, Mul(s.b2, 3), Mul(s.b2, 2), s.b2) by {
      assert Rotated(ForwardCol(c.b2), 1) == Col(Mul(s.b2, 3), Mul(s.b2, 2), s.b2, s.b2);
    }
    assert Rotated(ForwardCol(c.b3), 3) == Col(s.b3, s.b3, Mul(s.b3, 3), Mul(s.b3, 2)) by {
      assert Rotated(ForwardCol(c.b3), 1) == Col(Mul(s.b3, 3), Mul(s.b3, 2), s.b3, s.b3);
      assert Rotated(ForwardCol(c.b3), 2) == Col(s.b3, Mul(s.b3, 3), Mul(s.b3, 2), s.b3);
    }
  }

  /** The columns RT0 to RT3 hold, in terms of the byte that is multiplied. */
  ghost function InvCol(y: bv8): Col {
    Col(Mul(y, 0x0e), Mul(y, 0x09), Mul(y, 0x0d), Mul(y, 0x0b))
  }

  lemma ReverseColumn(y: Col, k: Col)
    ensures ChainCol(k, Rotated(InvCol(y.b0), 0), Rotated(InvCol(y.b1), 1), Rotated(InvCol(y.b2), 2), Rotated(InvCol(y.b3), 3))
            == AddCol(InvMixCol(y), k)
  {
    hide Add, Mul, Sum4;
    ChainSum(k.b0, Mul(y.b0, 0x0e), Mul(y.b1, 0x0b), Mul(y.b2, 0x0d), Mul(y.b3, 0x09));
    ChainSum(k.b1, Mul(y.b0, 0x09), Mul(y.b1, 0x0e), Mul(y.b2, 0x0b), Mul(y.b3, 0x0d));
    ChainSum(k.b2, Mul(y.b0, 0x0d), Mul(y.b1, 0x09), Mul(y.b2, 0x0e), Mul(y.b3, 0x0b));
    ChainSum(k.b3, Mul(y.b0, 0x0b), Mul(y.b1, 0x0d), Mul(y.b2, 0x09), Mul(y.b3, 0x0e));
    assert Rotated(InvCol(y.b1), 1) == Col(Mul(y.b1, 0x0b), Mul(y.b1, 0x0e), Mul(y.b1, 0x09), Mul(y.b1, 0x0d));
    assert Rotated(InvCol(y.b2), 2) == Col(Mul(y.b2, 0x0d), Mul(y.b2, 0x0b), Mul(y.b2, 0x0e), Mul(y.b2, 0x09)) by {
      assert Rotated(InvCol(y.b2), 1) == Col(Mul(y.b2, 0x0b), Mul(y.b2, 0x0e), Mul(y.b2, 0x09), Mul(y.b2, 0x0d));
    }
    assert Rotated(InvCol(y.b3), 3) == Col(Mul(y.b3, 0x09), Mul(y.b3, 0x0d), Mul(y.b3, 0x0b), Mul(y.b3, 0x0e)) by {
      assert Rotated(InvCol(y.b3), 1) == Col(Mul(y.b3, 0x0b), Mul(y.b3, 0x0e), Mul(y.b3, 0x09), Mul(y.b3, 0x0d));
      assert Rotated(InvCol(y.b3), 2) == Col(Mul(y.b3, 0x0d), Mul(y.b3, 0x0b), Mul(y.b3, 0x0e), Mul(y.b3, 0x09));
    }
  }

  /** One column of AES_FROUND. */
  lemma ForwardEntries(c: Col, k: Col)
    ensures Xor5(Word(k), Entry(FT(0), c.b0), Entry(FT(1), c.b1), Entry(FT(2), c.b2), Entry(FT(3), c.b3))
            == Word(AddCol(MixCol(SubCol(c)), k))
  {
    hide Xor5, Word, ChainCol, ForwardCol, Rotated, MixCol, AddCol;
    ChainWord(k, Rotated(ForwardCol(c.b0), 0), Rotated(ForwardCol(c.b1), 1), Rotated(ForwardCol(c.b2), 2),
              Rotated(ForwardCol(c.b3), 3));
    ForwardColumn(c, k);
  }

  /** One column of AES_RROUND. */
  lemma ReverseEntries(c: Col, k: Col)
    ensures Xor5(Word(k), Entry(RT(0), c.b0), Entry(RT(1), c.b1), Entry(RT(2), c.b2), Entry(RT(3), c.b3))
            == Word(AddCol(InvMixCol(InvSubCol(c)), k))
  {
    hide Xor5, Word, ChainCol, Rotated, InvMixCol, AddCol, Mul, InvSBox;
    var y := InvSubCol(c);
    ChainWord(k, Rotated(InvCol(y.b0), 0), Rotated(InvCol(y.b1), 1), Rotated(InvCol(y.b2), 2), Rotated(InvCol(y.b3), 3));
    ReverseColumn(y, k);
  }

  lemma AddColZero(c: Col)
    ensures AddCol(c, Col(0, 0, 0, 0)) == c
  {
    hide Add;
    AddZero(c.b0);
    AddZero(c.b1);
    AddZero(c.b2);
    AddZero(c.b3);
  }

  function Xor4(a: bv32, b: bv32, c: bv32, d: bv32): bv32 {
    Xor(Xor(Xor(a, b), c), d)
  }

  lemma Xor5Zero(a: bv32, b: bv32, c: bv32, d: bv32)
    ensures Xor5(Word(Col(0, 0, 0, 0)), a, b, c, d) == Xor4(a, b, c, d)
  {
    assert Xor(Word(Col(0, 0, 0, 0)), a) == a;
  }

  /** Four key table look-ups: InvMixColumns on a key word. */
  lemma KeyEntries(c: Col)
    ensures Xor4(Entry(KT(0), c.b0), Entry(KT(1), c.b1), Entry(KT(2), c.b2), Entry(KT(3), c.b3)) == Word(InvMixCol(c))
  {
    hide Xor4, Xor5, Word, ChainCol, Rotated, InvMixCol, AddCol, Mul, SBox, InvSBox;
    SBoxInverse(c.b0);
    SBoxInverse(c.b1);
    SBoxInverse(c.b2);
    SBoxInverse(c.b3);
    var zero := Col(0, 0, 0, 0);
    ChainWord(zero, Rotated(InvCol(c.b0), 0), Rotated(InvCol(c.b1), 1), Rotated(InvCol(c.b2), 2), Rotated(InvCol(c.b3), 3));
    ReverseColumn(c, zero);
    AddColZero(InvMixCol(c));
    Xor5Zero(Entry(KT(0), c.b0), Entry(KT(1), c.b1), Entry(KT(2), c.b2), Entry(KT(3), c.b3));
  }

  lemma FourBytes(b0: bv8, b1: bv8, b2: bv8, b3: bv8)
    ensures ((b0 as bv32) << 24) ^ ((b1 as bv32) << 16) ^ ((b2 as bv32) << 8) ^ (b3 as bv32) == Word(Col(b0, b1, b2, b3))
  {
  }

  /** Four bytes shifted into place, as in the last round and in the key schedule. */
  lemma BytesInWord(k: bv32, b0: bv8, b1: bv8, b2: bv8, b3: bv8)
    ensures Xor5(k, (b0 as bv32) << 24, (b1 as bv32) << 16, (b2 as bv32) << 8, b3 as bv32)
            == Xor(k, Word(Col(b0, b1, b2, b3)))
  {
    var a, b, c, d := (b0 as bv32) << 24, (b1 as bv32) << 16, (b2 as bv32) << 8, b3 as bv32;
    FourBytes(b0, b1, b2, b3);
    assert Xor4(a, b, c, d) == Word(Col(b0, b1, b2, b3));
    hide Xor, Word;
    XorAssociates(k, a, b);
    XorAssociates(k, Xor(a, b), c);
    XorAssociates(k, Xor(Xor(a, b), c), d);
  }

  // ----- one round

  /** Four words of a schedule, from position p on, are the words of a round key. */
  ghost predicate HoldsRoundKey(rk: seq<bv32>, p: nat, k: State) {
    && p + 4 <= |rk|
    && rk[p] == Word(k.c0) && rk[p + 1] == Word(k.c1) && rk[p + 2] == Word(k.c2) && rk[p + 3] == Word(k.c3)
  }

  lemma TableEntry(t: seq<bv32>, f: TableName, b: bv8)
    requires TableOf(t, f, 256)
    ensures |t| == 256 && t[Index(b)] == Entry(f, b)
  {
  }

  lemma BlockBytes(s: State)
    ensures Bytes(Word(s.c0)) == s.c0 && Bytes(Word(s.c1)) == s.c1 && Bytes(Word(s.c2)) == s.c2 && Bytes(Word(s.c3)) == s.c3
  {
    hide Word, Bytes;
    BytesWord(s.c0);
    BytesWord(s.c1);
    BytesWord(s.c2);
    BytesWord(s.c3);
  }

  /** One line of AES_FROUND: the bytes come from four different words. */
  method ForwardLine(g: AesGlobals, k: bv32, v0: bv32, v1: bv32, v2: bv32, v3: bv32) returns (x: bv32)
    requires g.Allocated() && g.Generated(256)
    ensures var c := Col(Bytes(v0).b0, Bytes(v1).b1, Bytes(v2).b2, Bytes(v3).b3);
      x == Xor5(k, Entry(FT(0), c.b0), Entry(FT(1), c.b1), Entry(FT(2), c.b2), Entry(FT(3), c.b3))
  {
    hide Xor5, Entry, Bytes, TableOf, Index;
    TableEntry(g.ft0[..], FT(0), Bytes(v0).b0);
    TableEntry(g.ft1[..], FT(1), Bytes(v1).b1);
    TableEntry(g.ft2[..], FT(2), Bytes(v2).b2);
    TableEntry(g.ft3[..], FT(3), Bytes(v3).b3);
    x := Xor5(k, g.ft0[Index(Bytes(v0).b0)], g.ft1[Index(Bytes(v1).b1)], g.ft2[Index(Bytes(v2).b2)],
              g.ft3[Index(Bytes(v3).b3)]);
  }

  /** One line of AES_RROUND. */
  method ReverseLine(g: AesGlobals, k: bv32, v0: bv32, v1: bv32, v2: bv32, v3: bv32) returns (x: bv32)
    requires g.Allocated() && g.Generated(256)
    ensures var c := Col(Bytes(v0).b0, Bytes(v1).b1, Bytes(v2).b2, Bytes(v3).b3);
      x == Xor5(k, Entry(RT(0), c.b0), Entry(RT(1), c.b1), Entry(RT(2), c.b2), Entry(RT(3), c.b3))
  {
    hide Xor5, Entry, Bytes, TableOf, Index;
    TableEntry(g.rt0[..], RT(0), Bytes(v0).b0);
    TableEntry(g.rt1[..], RT(1), Bytes(v1).b1);
    TableEntry(g.rt2[..], RT(2), Bytes(v2).b2);
    TableEntry(g.rt3[..], RT(3), Bytes(v3).b3);
    x := Xor5(k, g.rt0[Index(Bytes(v0).b0)], g.rt1[Index(Bytes(v1).b1)], g.rt2[Index(Bytes(v2).b2)],
              g.rt3[Index(Bytes(v3).b3)]);
  }

  /** Four bytes looked up in an S-box and shifted into place: a line of the last round or of the key schedule. */
  method SBoxLine(t: array<bv32>, ghost f: TableName, k: bv32, b0: bv8, b1: bv8, b2: bv8, b3: bv8,
                  ghost s0: bv8, ghost s1: bv8, ghost s2: bv8, ghost s3: bv8) returns (x: bv32)
    requires t.Length == 256 && TableOf(t[..], f, 256)
    requires Entry(f, b0) == s0 as bv32 && Entry(f, b1) == s1 as bv32
    requires Entry(f, b2) == s2 as bv32 && Entry(f, b3) == s3 as bv32
    ensures x == Xor(k, Word(Col(s0, s1, s2, s3)))
  {
    hide Word, Xor, Entry, TableOf, Index;
    TableEntry(t[..], f, b0);
    TableEntry(t[..], f, b1);
    TableEntry(t[..], f, b2);
    TableEntry(t[..], f, b3);
    x := Xor5(k, t[Index(b0)] << 24, t[Index(b1)] << 16, t[Index(b2)] << 8, t[Index(b3)]);
    BytesInWord(k, s0, s1, s2, s3);
  }

  lemma SubShift(s: State)
    ensures ShiftRows(SubBytes(s)) == SubBytes(ShiftRows(s))
    ensures InvShiftRows(InvSubBytes(s)) == InvSubBytes(InvShiftRows(s))
  {
  }

  /** AES_FROUND, with the round keys at rk[p..]. */
  method ForwardRound(g: AesGlobals, rk: array<bv32>, p: nat, y: Block, ghost s: State, ghost k: State) returns (x: Block)
    requires g.Allocated() && g.Generated(256)
    requires HoldsRoundKey(rk[..], p, k) && y == BlockOf(s)
    ensures x == BlockOf(CipherRound(s, k))
  {
    hide Xor5, Entry, Bytes, Word, TableOf, MixCol, AddCol, SBox, g.Generated, g.Allocated;
    BlockBytes(s);
    ghost var t := ShiftRows(s);
    ForwardEntries(t.c0, k.c0);
    ForwardEntries(t.c1, k.c1);
    ForwardEntries(t.c2, k.c2);
    ForwardEntries(t.c3, k.c3);
    SubShift(s);
    var x0 := ForwardLine(g, rk[p], y.w0, y.w1, y.w2, y.w3);
    var x1 := ForwardLine(g, rk[p + 1], y.w1, y.w2, y.w3, y.w0);
    var x2 := ForwardLine(g, rk[p + 2], y.w2, y.w3, y.w0, y.w1);
    var x3 := ForwardLine(g, rk[p + 3], y.w3, y.w0, y.w1, y.w2);
    x := Block(x0, x1, x2, x3);
  }

  /** AES_RROUND. */
  method ReverseRound(g: AesGlobals, rk: array<bv32>, p: nat, y: Block, ghost s: State, ghost k: State) returns (x: Block)
    requires g.Allocated() && g.Generated(256)
    requires HoldsRoundKey(rk[..], p, k) && y == BlockOf(s)
    ensures x == BlockOf(EqInvRound(s, k))
  {
    hide Xor5, Entry, Bytes, Word, TableOf, InvMixCol, AddCol, InvSBox, g.Generated, g.Allocated;
    BlockBytes(s);
    ghost var t := InvShiftRows(s);
    ReverseEntries(t.c0, k.c0);
    ReverseEntries(t.c1, k.c1);
    ReverseEntries(t.c2, k.c2);
    ReverseEntries(t.c3, k.c3);
    SubShift(s);
    var x0 := ReverseLine(g, rk[p], y.w0, y.w3, y.w2, y.w1);
    var x1 := ReverseLine(g, rk[p + 1], y.w1, y.w0, y.w3, y.w2);
    var x2 := ReverseLine(g, rk[p + 2], y.w2, y.w1, y.w0, y.w3);
    var x3 := ReverseLine(g, rk[p + 3], y.w3, y.w2, y.w1, y.w0);
    x := Block(x0, x1, x2, x3);
  }

  lemma SubEntries(forward: bool, c: Col)
    ensures var f, d := if forward then FSb else RSb, if forward then SubCol(c) else InvSubCol(c);
      Entry(f, c.b0) == d.b0 as bv32 && Entry(f, c.b1) == d.b1 as bv32
      && Entry(f, c.b2) == d.b2 as bv32 && Entry(f, c.b3) == d.b3 as bv32
  {
    hide SBox, InvSBox;
  }

  lemma AddColCommutes(a: Col, b: Col)
    ensures AddCol(a, b) == AddCol(b, a)
  {
    hide Add;
    AddCommutes(a.b0, b.b0);
    AddCommutes(a.b1, b.b1);
    AddCommutes(a.b2, b.b2);
    AddCommutes(a.b3, b.b3);
  }

  /** A line of the last round: S-box, then the round key word. */
  method LastLine(t: array<bv32>, ghost forward: bool, k: bv32, v0: bv32, v1: bv32, v2: bv32, v3: bv32, ghost kc: Col)
    returns (x: bv32)
    requires t.Length == 256 && TableOf(t[..], if forward then FSb else RSb, 256) && k == Word(kc)
    ensures var c := Col(Bytes(v0).b0, Bytes(v1).b1, Bytes(v2).b2, Bytes(v3).b3);
      x == Word(AddCol(if forward then SubCol(c) else InvSubCol(c), kc))
  {
    hide Bytes, Word, Xor, Entry, TableOf, AddCol, SubCol, InvSubCol;
    ghost var c := Col(Bytes(v0).b0, Bytes(v1).b1, Bytes(v2).b2, Bytes(v3).b3);
    ghost var d := if forward then SubCol(c) else InvSubCol(c);
    SubEntries(forward, c);
    x := SBoxLine(t, if forward then FSb else RSb, k, Bytes(v0).b0, Bytes(v1).b1, Bytes(v2).b2, Bytes(v3).b3,
                  d.b0, d.b1, d.b2, d.b3);
    WordXor(kc, d);
    AddColCommutes(kc, d);
  }

  // ----- blocks as sixteen bytes

  function BlockState(b: seq<bv8>): State
    requires |b| == 16
  {
    State(Col(b[0], b[1], b[2], b[3]), Col(b[4], b[5], b[6], b[7]),
          Col(b[8], b[9], b[10], b[11]), Col(b[12], b[13], b[14], b[15]))
  }

  /** GET_UINT32: four bytes, the most significant first. */
  function GetUint32(b: seq<bv8>, i: nat): bv32
    requires i + 4 <= |b|
  {
    Word(Col(b[i], b[i + 1], b[i + 2], b[i + 3]))
  }

  /** PUT_UINT32 on the four words of a block. */
  method PutBlock(x: Block, output: array<bv8>, ghost s: State)
    requires output.Length == 16 && x == BlockOf(s)
    modifies output
    ensures BlockState(output[..]) == s
  {
    hide Word, Bytes;
    BlockBytes(s);
    var c0, c1, c2, c3 := Bytes(x.w0), Bytes(x.w1), Bytes(x.w2), Bytes(x.w3);
    output[0], output[1], output[2], output[3] := c0.b0, c0.b1, c0.b2, c0.b3;
    output[4], output[5], output[6], output[7] := c1.b0, c1.b1, c1.b2, c1.b3;
    output[8], output[9], output[10], output[11] := c2.b0, c2.b1, c2.b2, c2.b3;
    output[12], output[13], output[14], output[15] := c3.b0, c3.b1, c3.b2, c3.b3;
  }

  /** Reads a block and adds the first round key. */
  method ReadBlock(input: array<bv8>, rk: array<bv32>, ghost k: State) returns (x: Block)
    requires input.Length == 16 && HoldsRoundKey(rk[..], 0, k)
    ensures x == BlockOf(AddRoundKey(BlockState(input[..]), k))
  {
    hide Word, Xor, AddCol;
    ghost var s := BlockState(input[..]);
    WordXor(s.c0, k.c0);
    WordXor(s.c1, k.c1);
    WordXor(s.c2, k.c2);
    WordXor(s.c3, k.c3);
    x := Block(Xor(GetUint32(input[..], 0), rk[0]), Xor(GetUint32(input[..], 4), rk[1]),
               Xor(GetUint32(input[..], 8), rk[2]), Xor(GetUint32(input[..], 12), rk[3]));
  }

  /** aes_context: the two schedules and the number of rounds. */
  class AesContext {
    const erk: array<bv32>
    const drk: array<bv32>
    var nr: nat

    constructor ()
      ensures erk.Length == drk.Length == 64 && fresh(erk) && fresh(drk) && erk != drk && nr == 0
    {
      erk, drk, nr := new bv32[64], new bv32[64], 0;
    }

    /** The context holds the schedules of a key. */
    ghost predicate Keyed(key: seq<Col>)
      reads this, erk, drk
    {
      && erk.Length == drk.Length == 64
      && ValidKey(key) && nr == Rounds(key)
      && (forall r :: 0 <= r <= nr ==> HoldsRoundKey(erk[..], 4 * r, RoundKey(key, r)))
      && (forall r :: 0 <= r <= nr ==> HoldsRoundKey(drk[..], 4 * r, InvRoundKey(key, r)))
    }
  }

  /** A round of aes_encrypt. */
  method EncryptRound(g: AesGlobals, ctx: AesContext, r: nat, y: Block, ghost key: seq<Col>, ghost s: State)
    returns (x: Block)
    requires g.Allocated() && g.Generated(256) && ctx.Keyed(key) && 1 <= r < ctx.nr
    requires y == BlockOf(CipherState(key, s, r - 1))
    ensures x == BlockOf(CipherState(key, s, r))
  {
    hide CipherRound, RoundKey, InvRoundKey, HoldsRoundKey, TableOf;
    assert HoldsRoundKey(ctx.erk[..], 4 * r, RoundKey(key, r));
    x := ForwardRound(g, ctx.erk, 4 * r, y, CipherState(key, s, r - 1), RoundKey(key, r));
  }

  /** A round of aes_decrypt. */
  method DecryptRound(g: AesGlobals, ctx: AesContext, r: nat, y: Block, ghost key: seq<Col>, ghost s: State)
    returns (x: Block)
    requires g.Allocated() && g.Generated(256) && ctx.Keyed(key) && 1 <= r < ctx.nr
    requires y == BlockOf(EqInvState(key, s, r - 1))
    ensures x == BlockOf(EqInvState(key, s, r))
  {
    hide EqInvRound, RoundKey, InvRoundKey, HoldsRoundKey, TableOf;
    assert HoldsRoundKey(ctx.drk[..], 4 * r, InvRoundKey(key, r));
    x := ReverseRound(g, ctx.drk, 4 * r, y, EqInvState(key, s, r - 1), InvRoundKey(key, r));
  }

  /** The last round of aes_encrypt: no MixColumns. */
  method EncryptLast(g: AesGlobals, ctx: AesContext, y: Block, ghost key: seq<Col>, ghost s: State) returns (x: Block)
    requires g.Allocated() && g.Generated(256) && ctx.Keyed(key)
    requires y == BlockOf(CipherState(key, s, ctx.nr - 1))
    ensures x == BlockOf(Cipher(key, s))
  {
    hide CipherState, RoundKey, Bytes, Word, AddCol, SubCol, TableOf;
    var p := 4 * ctx.nr;
    ghost var t, k := CipherState(key, s, ctx.nr - 1), RoundKey(key, ctx.nr);
    assert HoldsRoundKey(ctx.erk[..], p, k);
    BlockBytes(t);
    SubShift(t);
    var x0 := LastLine(g.fsb, true, ctx.erk[p], y.w0, y.w1, y.w2, y.w3, k.c0);
    var x1 := LastLine(g.fsb, true, ctx.erk[p + 1], y.w1, y.w2, y.w3, y.w0, k.c1);
    var x2 := LastLine(g.fsb, true, ctx.erk[p + 2], y.w2, y.w3, y.w0, y.w1, k.c2);
    var x3 := LastLine(g.fsb, true, ctx.erk[p + 3], y.w3, y.w0, y.w1, y.w2, k.c3);
    x := Block(x0, x1, x2, x3);
  }

  /** The last round of aes_decrypt. */
  method DecryptLast(g: AesGlobals, ctx: AesContext, y: Block, ghost key: seq<Col>, ghost s: State) returns (x: Block)
    requires g.Allocated() && g.Generated(256) && ctx.Keyed(key)
    requires y == BlockOf(EqInvState(key, s, ctx.nr - 1))
    ensures x == BlockOf(EqInvCipher(key, s))
  {
    hide EqInvState, RoundKey, InvRoundKey, Bytes, Word, AddCol, InvSubCol, TableOf;
    var p := 4 * ctx.nr;
    ghost var t, k := EqInvState(key, s, ctx.nr - 1), InvRoundKey(key, ctx.nr);
    assert HoldsRoundKey(ctx.drk[..], p, k);
    BlockBytes(t);
    SubShift(t);
    var x0 := LastLine(g.rsb, false, ctx.drk[p], y.w0, y.w3, y.w2, y.w1, k.c0);
    var x1 := LastLine(g.rsb, false, ctx.drk[p + 1], y.w1, y.w0, y.w3, y.w2, k.c1);
    var x2 := LastLine(g.rsb, false, ctx.drk[p + 2], y.w2, y.w1, y.w0, y.w3, k.c2);
    var x3 := LastLine(g.rsb, false, ctx.drk[p + 3], y.w3, y.w2, y.w1, y.w0, k.c3);
    x := Block(x0, x1, x2, x3);
  }

  lemma KeyedFacts(ctx: AesContext, key: seq<Col>)
    requires ctx.Keyed(key)
    ensures ValidKey(key) && ctx.nr == Rounds(key)
    ensures HoldsRoundKey(ctx.erk[..], 0, RoundKey(key, 0)) && HoldsRoundKey(ctx.drk[..], 0, InvRoundKey(key, 0))
  {
    hide HoldsRoundKey, RoundKey, InvRoundKey;
    assert HoldsRoundKey(ctx.erk[..], 4 * 0, RoundKey(key, 0));
    assert HoldsRoundKey(ctx.drk[..], 4 * 0, InvRoundKey(key, 0));
  }

  lemma FirstState(key: seq<Col>, s: State)
    requires ValidKey(key)
    ensures CipherState(key, s, 0) == AddRoundKey(s, RoundKey(key, 0))
    ensures EqInvState(key, s, 0) == AddRoundKey(s, InvRoundKey(key, 0))
  {
  }

  /** Rounds 1 to 5 of aes_encrypt. */
  method EncryptFirstFive(g: AesGlobals, ctx: AesContext, x0: Block, ghost key: seq<Col>, ghost s: State) returns (y: Block)
    requires g.Allocated() && g.Generated(256) && ctx.Keyed(key) && x0 == BlockOf(CipherState(key, s, 0))
    ensures y == BlockOf(CipherState(key, s, 5))
  {
    hide CipherState, BlockOf, HoldsRoundKey, TableOf;
    y := EncryptRound(g, ctx, 1, x0, key, s);
    var x := EncryptRound(g, ctx, 2, y, key, s);
    y := EncryptRound(g, ctx, 3, x, key, s);
    x := EncryptRound(g, ctx, 4, y, key, s);
    y := EncryptRound(g, ctx, 5, x, key, s);
  }

  /** Rounds 6 to 9. */
  method EncryptNextFour(g: AesGlobals, ctx: AesContext, y0: Block, ghost key: seq<Col>, ghost s: State) returns (y: Block)
    requires g.Allocated() && g.Generated(256) && ctx.Keyed(key) && y0 == BlockOf(CipherState(key, s, 5))
    ensures y == BlockOf(CipherState(key, s, 9))
  {
    hide CipherState, BlockOf, HoldsRoundKey, TableOf;
    var x := EncryptRound(g, ctx, 6, y0, key, s);
    y := EncryptRound(g, ctx, 7, x, key, s);
    x := EncryptRound(g, ctx, 8, y, key, s);
    y := EncryptRound(g, ctx, 9, x, key, s);
  }

  /** Rounds 10 to 13, for the longer keys only. */
  method EncryptMore(g: AesGlobals, ctx: AesContext, y0: Block, ghost key: seq<Col>, ghost s: State) returns (y: Block)
    requires g.Allocated() && g.Generated(256) && ctx.Keyed(key) && y0 == BlockOf(CipherState(key, s, 9))
    ensures y == BlockOf(CipherState(key, s, ctx.nr - 1))
  {
    hide CipherState, BlockOf, HoldsRoundKey, TableOf;
    y := y0;
    if ctx.nr > 10 {
      var x := EncryptRound(g, ctx, 10, y, key, s);
      y := EncryptRound(g, ctx, 11, x, key, s);
    }
    if ctx.nr > 12 {
      var x := EncryptRound(g, ctx, 12, y, key, s);
      y := EncryptRound(g, ctx, 13, x, key, s);
    }
  }

  /** aes_encrypt: the rounds are written out, two or four more for the longer keys. Output may be input. */
  method Encrypt(g: AesGlobals, ctx: AesContext, input: array<bv8>, output: array<bv8>, ghost key: seq<Col>)
    requires g.Allocated() && g.Generated(256) && ctx.Keyed(key) && input.Length == output.Length == 16
    modifies output
    ensures BlockState(output[..]) == Cipher(key, old(BlockState(input[..])))
  {
    hide CipherState, Cipher, AddRoundKey, RoundKey, HoldsRoundKey, BlockState, BlockOf, TableOf;
    KeyedFacts(ctx, key);
    ghost var s := BlockState(input[..]);
    FirstState(key, s);
    var x := ReadBlock(input, ctx.erk, RoundKey(key, 0));
    var y := EncryptFirstFive(g, ctx, x, key, s);
    y := EncryptNextFour(g, ctx, y, key, s);
    y := EncryptMore(g, ctx, y, key, s);
    x := EncryptLast(g, ctx, y, key, s);
    PutBlock(x, output, Cipher(key, s));
  }

  /** Rounds 1 to 5 of aes_decrypt. */
  method DecryptFirstFive(g: AesGlobals, ctx: AesContext, x0: Block, ghost key: seq<Col>, ghost s: State) returns (y: Block)
    requires g.Allocated() && g.Generated(256) && ctx.Keyed(key) && x0 == BlockOf(EqInvState(key, s, 0))
    ensures y == BlockOf(EqInvState(key, s, 5))
  {
    hide EqInvState, BlockOf, HoldsRoundKey, TableOf;
    y := DecryptRound(g, ctx, 1, x0, key, s);
    var x := DecryptRound(g, ctx, 2, y, key, s);
    y := DecryptRound(g, ctx, 3, x, key, s);
    x := DecryptRound(g, ctx, 4, y, key, s);
    y := DecryptRound(g, ctx, 5, x, key, s);
  }

  /** Rounds 6 to 9. */
  method DecryptNextFour(g: AesGlobals, ctx: AesContext, y0: Block, ghost key: seq<Col>, ghost s: State) returns (y: Block)
    requires g.Allocated() && g.Generated(256) && ctx.Keyed(key) && y0 == BlockOf(EqInvState(key, s, 5))
    ensures y == BlockOf(EqInvState(key, s, 9))
  {
    hide EqInvState, BlockOf, HoldsRoundKey, TableOf;
    var x := DecryptRound(g, ctx, 6, y0, key, s);
    y := DecryptRound(g, ctx, 7, x, key, s);
    x := DecryptRound(g, ctx, 8, y, key, s);
    y := DecryptRound(g, ctx, 9, x, key, s);
  }

  /** Rounds 10 to 13, for the longer keys only. */
  method DecryptMore(g: AesGlobals, ctx: AesContext, y0: Block, ghost key: seq<Col>, ghost s: State) returns (y: Block)
    requires g.Allocated() && g.Generated(256) && ctx.Keyed(key) && y0 == BlockOf(EqInvState(key, s, 9))
    ensures y == BlockOf(EqInvState(key, s, ctx.nr - 1))
  {
    hide EqInvState, BlockOf, HoldsRoundKey, TableOf;
    y := y0;
    if ctx.nr > 10 {
      var x := DecryptRound(g, ctx, 10, y, key, s);
      y := DecryptRound(g, ctx, 11, x, key, s);
    }
    if ctx.nr > 12 {
      var x := DecryptRound(g, ctx, 12, y, key, s);
      y := DecryptRound(g, ctx, 13, x, key, s);
    }
  }

  /** aes_decrypt: the rounds are written out, two or four more for the longer keys. Output may be input. */
  method Decrypt(g: AesGlobals, ctx: AesContext, input: array<bv8>, output: array<bv8>, ghost key: seq<Col>)
    requires g.Allocated() && g.Generated(256) && ctx.Keyed(key) && input.Length == output.Length == 16
    modifies output
    ensures BlockState(output[..]) == EqInvCipher(key, old(BlockState(input[..])))
  {
    hide EqInvState, EqInvCipher, AddRoundKey, InvRoundKey, HoldsRoundKey, BlockState, BlockOf, TableOf;
    KeyedFacts(ctx, key);
    ghost var s := BlockState(input[..]);
    FirstState(key, s);
    var x := ReadBlock(input, ctx.drk, InvRoundKey(key, 0));
    var y := DecryptFirstFive(g, ctx, x, key, s);
    y := DecryptNextFour(g, ctx, y, key, s);
    y := DecryptMore(g, ctx, y, key, s);
    x := DecryptLast(g, ctx, y, key, s);
    PutBlock(x, output, EqInvCipher(key, s));
  }
}
