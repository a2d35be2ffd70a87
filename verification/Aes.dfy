/** Words of four bytes, most significant first, and their exclusive or. */
module AesWords {
  import opened GaloisField
  import opened Columns4
  import opened MachineWords

  function Word(c: Col): bv32 {
    ((c.b0 as bv32) << 24) | ((c.b1 as bv32) << 16) | ((c.b2 as bv32) << 8) | (c.b3 as bv32)
  }

  function Bytes(w: bv32): Col {
    Col(((w >> 24) & 0xff) as bv8, ((w >> 16) & 0xff) as bv8, ((w >> 8) & 0xff) as bv8, (w & 0xff) as bv8)
  }

  function RotR8(x: bv32): bv32 {
    (x << 24) | (x >> 8)
  }

  /** The shape of every table expression: a round key word and four look-ups. */
  function Xor5(k: bv32, a: bv32, b: bv32, c: bv32, d: bv32): bv32 {
    Xor(Xor(Xor(Xor(k, a), b), c), d)
  }

  lemma BytesWord(c: Col)
    ensures Bytes(Word(c)) == c
  {
  }

  lemma WordXor(a: Col, b: Col)
    ensures Xor(Word(a), Word(b)) == Word(AddCol(a, b))
  {
  }

  lemma WordRotated(c: Col)
    ensures RotR8(Word(c)) == Word(Col(c.b3, c.b0, c.b1, c.b2))
  {
  }
}

/** The generated tables of aes.c. */
module AesTables {
  import opened GaloisField
  import opened Columns4
  import opened Fips197
  import opened MachineWords
  import opened AesWords

  /** The XTIME macro on an unsigned char. */
  function XTIME(x: bv8): bv8 {
    (x << 1) ^ (if x & 0x80 != 0 then 0x1b else 0x00)
  }

  // ----- what the tables hold

  ghost function ForwardCol(b: bv8): Col {
    var s := SBox(b);
    Col(Mul(s, 2), s, s, Mul(s, 3))
  }

  ghost function ReverseCol(b: bv8): Col {
    var y := InvSBox(b);
    Col(Mul(y, 0x0e), Mul(y, 0x09), Mul(y, 0x0d), Mul(y, 0x0b))
  }

  /** The column rotated k bytes towards the end. */
  function Rotated(c: Col, k: nat): Col {
    if k == 0 then c else var d := Rotated(c, k - 1); Col(d.b3, d.b0, d.b1, d.b2)
  }

  datatype TableName = FSb | RSb | FT(k: nat) | RT(k: nat) | KT(k: nat)

  /** What each table holds at a byte. */
  ghost function Entry(t: TableName, b: bv8): bv32 {
    match t
    case FSb => SBox(b) as bv32
    case RSb => InvSBox(b) as bv32
    case FT(k) => Word(Rotated(ForwardCol(b), k))
    case RT(k) => Word(Rotated(ReverseCol(b), k))
    case KT(k) => Word(Rotated(ReverseCol(SBox(b)), k))
  }

  /** The first n entries of a table are the values of `f`. */
  ghost predicate TableOf(t: seq<bv32>, f: TableName, n: nat) {
    |t| == 256 && forall b: bv8 :: Index(b) < n ==> t[Index(b)] == Entry(f, b)
  }

  lemma TableStep(t: seq<bv32>, f: TableName, c: bv8)
    requires TableOf(t, f, Index(c))
    ensures TableOf(t[Index(c) := Entry(f, c)], f, Index(c) + 1)
  {
    hide Index, Entry;
    forall b: bv8 | Index(b) == Index(c) ensures b == c {
      IndexInjective(b, c);
    }
  }

  ghost predicate LogTables(pow: seq<bv8>, log: seq<bv8>, n: nat) {
    && |pow| == |log| == 256 && n <= 256
    && (forall k :: 0 <= k < n ==> pow[k] == Pow(k))
    && (forall k :: 1 <= k < n ==> Index(log[Index(Pow(k))]) == k)
  }

  lemma PowZero()
    ensures Pow(0) == 1
  {
  }

  lemma PowDistinct(k: nat, i: nat)
    requires 1 <= k < i <= 255
    ensures Pow(k) != Pow(i)
  {
    hide Pow;
    if i == 255 {
      PowValues();
      PowInjective(0, k);
      assert Pow(0) == 1 by { PowZero(); }
    } else {
      PowInjective(k, i);
    }
  }

  lemma LogStep(pow: seq<bv8>, log: seq<bv8>, c: bv8)
    requires LogTables(pow, log, Index(c))
    ensures var i := Index(c); LogTables(pow[i := Pow(i)], log[Index(Pow(i)) := c], i + 1)
  {
    hide Pow, Index;
    var i := Index(c);
    forall k | 1 <= k < i ensures Index(Pow(k)) != Index(Pow(i)) {
      PowDistinct(k, i);
      if Index(Pow(k)) == Index(Pow(i)) {
        IndexInjective(Pow(k), Pow(i));
      }
    }
  }

  lemma PowNext(i: nat)
    ensures Pow(i + 1) == Pow(i) ^ Xtime(Pow(i))
  {
  }

  lemma IndexValues()
    ensures Index(0x00) == 0x00 && Index(0x01) == 0x01 && Index(0x63) == 0x63
  {
  }

  /** aes_gen_tables, first loop: powers of the generator and their logarithms. */
  method GenPowLog() returns (pow: array<bv8>, log: array<bv8>)
    ensures fresh(pow) && fresh(log) && LogTables(pow[..], log[..], 256)
  {
    hide Pow, Index;
    pow, log := new bv8[256], new bv8[256];
    var x: bv8 := 1;
    var c: bv8 := 0;  // the counter as an unsigned char
    PowZero();
    IndexValues();
    for i := 0 to 256
      invariant i < 256 ==> Index(c) == i
      invariant x == Pow(i) && LogTables(pow[..], log[..], i)
    {
      LogStep(pow[..], log[..], c);
      pow[i] := x;
      log[Index(x)] := c;
      NextIndex(c);
      c := c + 1;
      XtimeConditional(x);
      PowNext(i);
      x := x ^ XTIME(x);
    }
  }

  /** Every nonzero byte has a logarithm between 1 and 255 in the table. */
  lemma LogOf(pow: seq<bv8>, log: seq<bv8>, b: bv8) returns (k: nat)
    requires LogTables(pow, log, 256) && b != 0
    ensures 1 <= k <= 255 && Pow(k) == b && Index(log[Index(b)]) == k
  {
    hide Pow, Index;
    k := PowSurjective(b);
    if k == 0 {
      PowZero();
      PowValues();
      k := 255;
    }
  }

  /** The MUL macro. */
  function MUL(pow: seq<bv8>, log: seq<bv8>, x: bv8, y: bv8): bv8
    requires |pow| == |log| == 256
  {
    if x != 0 && y != 0 then pow[(Index(log[Index(x)]) + Index(log[Index(y)])) % 255] else 0
  }

  /** Multiplication through logarithms is multiplication in the field. */
  lemma MULIsMul(pow: seq<bv8>, log: seq<bv8>, x: bv8, y: bv8)
    requires LogTables(pow, log, 256)
    ensures MUL(pow, log, x, y) == Mul(y, x)
  {
    hide Pow, Mul, Index;
    MulByZero(x);
    MulByZero(y);
    if x != 0 && y != 0 {
      var i := LogOf(pow, log, x);
      var j := LogOf(pow, log, y);
      MulPow(j, i);
      PowPeriodic(i + j);
    }
  }

  // ----- the S-boxes

  lemma RotatedXors(x: bv8)
    ensures var y1 := (x << 1) | (x >> 7);
      var x1 := x ^ y1;
      var y2 := (y1 << 1) | (y1 >> 7);
      var x2 := x1 ^ y2;
      var y3 := (y2 << 1) | (y2 >> 7);
      var x3 := x2 ^ y3;
      var y4 := (y3 << 1) | (y3 >> 7);
      x3 ^ (y4 ^ 0x63) == Affine(x)
  {
  }

  /** The S-box values of the bytes below n are in place, in both directions. */
  ghost predicate SBoxTables(fsb: seq<bv32>, rsb: seq<bv32>, n: nat) {
    && |fsb| == |rsb| == 256
    && (forall b: bv8 :: Index(b) < n ==> fsb[Index(b)] == SBox(b) as bv32)
    && (forall b: bv8 :: Index(b) < n ==> rsb[Index(SBox(b))] == b as bv32)
  }

  lemma SBoxStep(fsb: seq<bv32>, rsb: seq<bv32>, c: bv8, x: bv8)
    requires SBoxTables(fsb, rsb, Index(c)) && x == SBox(c)
    ensures SBoxTables(fsb[Index(c) := x as bv32], rsb[Index(x) := c as bv32], Index(c) + 1)
  {
    hide SBox, Index;
    var i := Index(c);
    forall b: bv8 | Index(b) < i ensures Index(SBox(b)) != Index(x) {
      SBoxInverse(b);
      SBoxInverse(c);
      if Index(SBox(b)) == Index(x) {
        IndexInjective(SBox(b), x);
      }
    }
    forall b: bv8 | Index(b) == i ensures b == c {
      IndexInjective(b, c);
    }
  }

  lemma SBoxTablesFull(fsb: seq<bv32>, rsb: seq<bv32>)
    requires SBoxTables(fsb, rsb, 256)
    ensures TableOf(fsb, FSb, 256) && TableOf(rsb, RSb, 256)
  {
    hide SBox, InvSBox, Index;
    forall b: bv8 ensures rsb[Index(b)] == InvSBox(b) as bv32 {
      SBoxInverse(b);
      assert rsb[Index(SBox(InvSBox(b)))] == InvSBox(b) as bv32;
    }
  }

  lemma SBoxZero()
    ensures SBox(0) == 0x63
  {
  }

  lemma SBoxOfPow(k: nat)
    requires k <= 255
    ensures SBox(Pow(k)) == Affine(Pow(255 - k))
  {
    hide Pow, Affine;
    InversePow(k);
  }

  /** The table look-up that stands for the multiplicative inverse. */
  lemma InverseFromTables(pow: seq<bv8>, log: seq<bv8>, c: bv8)
    requires LogTables(pow, log, 256) && 1 <= Index(c)
    ensures Index(log[Index(c)]) <= 255 && SBox(c) == Affine(pow[255 - Index(log[Index(c)])])
  {
    hide Pow, SBox, Affine, Index;
    IndexValues();
    var k := LogOf(pow, log, c);
    SBoxOfPow(k);
  }

  /** The body of the S-box loop: four rotations, each added in, and the constant. */
  method AffineByShifts(x0: bv8) returns (x: bv8)
    ensures x == Affine(x0)
  {
    RotatedXors(x0);
    hide Affine;
    x := x0;
    var y := x;
    y := (y << 1) | (y >> 7);
    x := x ^ y;
    y := (y << 1) | (y >> 7);
    x := x ^ y;
    y := (y << 1) | (y >> 7);
    x := x ^ y;
    y := (y << 1) | (y >> 7);
    x := x ^ (y ^ 0x63);
  }

  /** aes_gen_tables, the loop that fills the forward and reverse S-boxes. */
  method GenSBoxes(pow: array<bv8>, log: array<bv8>, fsb: array<bv32>, rsb: array<bv32>)
    requires LogTables(pow[..], log[..], 256) && fsb.Length == rsb.Length == 256 && fsb != rsb
    modifies fsb, rsb
    ensures SBoxTables(fsb[..], rsb[..], 256)
  {
    hide Pow, SBox, Affine, Index;
    var c: bv8 := 0x00;  // the counter as an unsigned char
    SBoxZero();
    IndexValues();
    SBoxStep(fsb[..], rsb[..], 0, 0x63);
    fsb[0x00] := 0x63;
    rsb[0x63] := 0x00;
    c := 0x01;
    for i := 1 to 256
      invariant i < 256 ==> Index(c) == i
      invariant SBoxTables(fsb[..], rsb[..], i)
      invariant LogTables(pow[..], log[..], 256)
    {
      InverseFromTables(pow[..], log[..], c);
      var x := AffineByShifts(pow[255 - Index(log[i])]);
      SBoxStep(fsb[..], rsb[..], c, x);
      fsb[i] := x as bv32;
      rsb[Index(x)] := c as bv32;
      NextIndex(c);
      c := c + 1;
    }
  }

  // ----- the round tables

  lemma WordFromBytes(b3: bv8, b2: bv8, b1: bv8, b0: bv8)
    ensures (b3 as bv32) ^ ((b2 as bv32) << 8) ^ ((b1 as bv32) << 16) ^ ((b0 as bv32) << 24) == Word(Col(b0, b1, b2, b3))
  {
  }

  lemma XtimeIsMacro(x: bv8)
    ensures XTIME(x) == Xtime(x)
  {
    XtimeConditional(x);
  }

  lemma ForwardEntry(c: bv8, x: bv8)
    requires x == SBox(c)
    ensures Word(Col(XTIME(x), x, x, x ^ XTIME(x))) == Entry(FT(0), c)
  {
    hide SBox, Mul, Xtime, XTIME, Word;
    MulByConstants(x);
    XtimeIsMacro(x);
  }

  lemma NextForward(k: nat, c: bv8)
    ensures RotR8(Entry(FT(k), c)) == Entry(FT(k + 1), c)
    ensures RotR8(Entry(RT(k), c)) == Entry(RT(k + 1), c)
  {
    hide SBox, InvSBox, Mul, Word, RotR8;
    WordRotated(Rotated(ForwardCol(c), k));
    WordRotated(Rotated(ReverseCol(c), k));
  }

  /** One pass of the loop for FT0 to FT3. */
  method StoreForward(c: bv8, x: bv8, ft0: array<bv32>, ft1: array<bv32>, ft2: array<bv32>, ft3: array<bv32>)
    requires ft0.Length == ft1.Length == ft2.Length == ft3.Length == 256
    requires ft0 != ft1 && ft0 != ft2 && ft0 != ft3 && ft1 != ft2 && ft1 != ft3 && ft2 != ft3
    requires x == SBox(c)
    modifies ft0, ft1, ft2, ft3
    ensures ft0[..] == old(ft0[..])[Index(c) := Entry(FT(0), c)] && ft1[..] == old(ft1[..])[Index(c) := Entry(FT(1), c)]
    ensures ft2[..] == old(ft2[..])[Index(c) := Entry(FT(2), c)] && ft3[..] == old(ft3[..])[Index(c) := Entry(FT(3), c)]
  {
    hide SBox, XTIME, Word, Index, Entry, RotR8;
    var y := XTIME(x);
    WordFromBytes(x ^ y, x, x, y);
    ForwardEntry(c, x);
    NextForward(0, c);
    NextForward(1, c);
    NextForward(2, c);
    var i := Index(c);
    ft0[i] := ((x ^ y) as bv32) ^ ((x as bv32) << 8) ^ ((x as bv32) << 16) ^ ((y as bv32) << 24);
    ft1[i] := RotR8(ft0[i]);
    ft2[i] := RotR8(ft1[i]);
    ft3[i] := RotR8(ft2[i]);
  }

  lemma ReverseEntry(pow: seq<bv8>, log: seq<bv8>, c: bv8, y: bv8)
    requires LogTables(pow, log, 256) && y == InvSBox(c)
    ensures Word(Col(MUL(pow, log, 0x0e, y), MUL(pow, log, 0x09, y), MUL(pow, log, 0x0d, y), MUL(pow, log, 0x0b, y)))
            == Entry(RT(0), c)
  {
    hide InvSBox, MUL, Mul, Word, LogTables;
    MULIsMul(pow, log, 0x0b, y);
    MULIsMul(pow, log, 0x0d, y);
    MULIsMul(pow, log, 0x09, y);
    MULIsMul(pow, log, 0x0e, y);
  }

  /** One pass of the loop for RT0 to RT3. */
  method StoreReverse(c: bv8, y: bv8, pow: array<bv8>, log: array<bv8>,
                      rt0: array<bv32>, rt1: array<bv32>, rt2: array<bv32>, rt3: array<bv32>)
    requires rt0.Length == rt1.Length == rt2.Length == rt3.Length == 256
    requires rt0 != rt1 && rt0 != rt2 && rt0 != rt3 && rt1 != rt2 && rt1 != rt3 && rt2 != rt3
    requires pow.Length == log.Length == 256 && LogTables(pow[..], log[..], 256) && y == InvSBox(c)
    modifies rt0, rt1, rt2, rt3
    ensures rt0[..] == old(rt0[..])[Index(c) := Entry(RT(0), c)] && rt1[..] == old(rt1[..])[Index(c) := Entry(RT(1), c)]
    ensures rt2[..] == old(rt2[..])[Index(c) := Entry(RT(2), c)] && rt3[..] == old(rt3[..])[Index(c) := Entry(RT(3), c)]
  {
    hide InvSBox, LogTables, MUL, Word, Index, Entry, RotR8;
    var b, d := MUL(pow[..], log[..], 0x0b, y), MUL(pow[..], log[..], 0x0d, y);
    var n, e := MUL(pow[..], log[..], 0x09, y), MUL(pow[..], log[..], 0x0e, y);
    var w := (b as bv32) ^ ((d as bv32) << 8) ^ ((n as bv32) << 16) ^ ((e as bv32) << 24);
    ReverseEntry(pow[..], log[..], c, y);
    WordFromBytes(b, d, n, e);
    NextForward(0, c);
    NextForward(1, c);
    NextForward(2, c);
    var i := Index(c);
    rt0[i] := w;
    rt1[i] := RotR8(rt0[i]);
    rt2[i] := RotR8(rt1[i]);
    rt3[i] := RotR8(rt2[i]);
  }

  lemma ByteBack(b: bv8)
    ensures ((b as bv32) & 0xff) as bv8 == b
  {
  }

  lemma LogLengths(pow: seq<bv8>, log: seq<bv8>)
    requires LogTables(pow, log, 256)
    ensures |pow| == |log| == 256
  {
  }

  lemma RconWord(x: bv8)
    ensures (x as bv32) << 24 == Word(Col(x, 0, 0, 0))
  {
  }

  /** The global arrays of aes.c and its two initialization flags. */
  class AesGlobals {
    const fsb: array<bv32>
    const rsb: array<bv32>
    const ft0: array<bv32>
    const ft1: array<bv32>
    const ft2: array<bv32>
    const ft3: array<bv32>
    const rt0: array<bv32>
    const rt1: array<bv32>
    const rt2: array<bv32>
    const rt3: array<bv32>
    const kt0: array<bv32>
    const kt1: array<bv32>
    const kt2: array<bv32>
    const kt3: array<bv32>
    const rcon: array<bv32>
    var doInit: bool
    var ktInit: bool

    constructor ()
      ensures Allocated() && doInit && ktInit
      ensures fresh(Arrays())
    {
      fsb, rsb := new bv32[256], new bv32[256];
      ft0, ft1, ft2, ft3 := new bv32[256], new bv32[256], new bv32[256], new bv32[256];
      rt0, rt1, rt2, rt3 := new bv32[256], new bv32[256], new bv32[256], new bv32[256];
      kt0, kt1, kt2, kt3 := new bv32[256], new bv32[256], new bv32[256], new bv32[256];
      rcon := new bv32[10];
      doInit, ktInit := true, true;
    }

    ghost function Arrays(): set<object> {
      {fsb, rsb, ft0, ft1, ft2, ft3, rt0, rt1, rt2, rt3, kt0, kt1, kt2, kt3, rcon}
    }

    ghost predicate Allocated() {
      && fsb.Length == rsb.Length == ft0.Length == ft1.Length == ft2.Length == ft3.Length == 256
      && rt0.Length == rt1.Length == rt2.Length == rt3.Length == 256
      && kt0.Length == kt1.Length == kt2.Length == kt3.Length == 256 && rcon.Length == 10
      && fsb !in {rsb, ft0, ft1, ft2, ft3, rt0, rt1, rt2, rt3, kt0, kt1, kt2, kt3, rcon}
      && rsb !in {ft0, ft1, ft2, ft3, rt0, rt1, rt2, rt3, kt0, kt1, kt2, kt3, rcon}
      && ft0 !in {ft1, ft2, ft3, rt0, rt1, rt2, rt3, kt0, kt1, kt2, kt3, rcon}
      && ft1 !in {ft2, ft3, rt0, rt1, rt2, rt3, kt0, kt1, kt2, kt3, rcon}
      && ft2 !in {ft3, rt0, rt1, rt2, rt3, kt0, kt1, kt2, kt3, rcon}
      && ft3 !in {rt0, rt1, rt2, rt3, kt0, kt1, kt2, kt3, rcon}
      && rt0 !in {rt1, rt2, rt3, kt0, kt1, kt2, kt3, rcon}
      && rt1 !in {rt2, rt3, kt0, kt1, kt2, kt3, rcon}
      && rt2 !in {rt3, kt0, kt1, kt2, kt3, rcon}
      && rt3 !in {kt0, kt1, kt2, kt3, rcon}
      && kt0 !in {kt1, kt2, kt3, rcon} && kt1 !in {kt2, kt3, rcon} && kt2 !in {kt3, rcon} && kt3 != rcon
    }

    ghost predicate Generated(n: nat)
      reads fsb, rsb, ft0, ft1, ft2, ft3, rt0, rt1, rt2, rt3
    {
      && TableOf(fsb[..], FSb, 256) && TableOf(rsb[..], RSb, 256)
      && TableOf(ft0[..], FT(0), n) && TableOf(ft1[..], FT(1), n) && TableOf(ft2[..], FT(2), n) && TableOf(ft3[..], FT(3), n)
      && TableOf(rt0[..], RT(0), n) && TableOf(rt1[..], RT(1), n) && TableOf(rt2[..], RT(2), n) && TableOf(rt3[..], RT(3), n)
    }

    ghost predicate RconReady()
      reads rcon
    {
      rcon.Length == 10 && forall i :: 0 <= i < 10 ==> rcon[i] == Word(Col(RconByte(i), 0, 0, 0))
    }

    ghost predicate KeyTablesOf(n: nat)
      reads kt0, kt1, kt2, kt3
    {
      TableOf(kt0[..], KT(0), n) && TableOf(kt1[..], KT(1), n) && TableOf(kt2[..], KT(2), n) && TableOf(kt3[..], KT(3), n)
    }

    /** What every call of aes_set_key leaves behind. */
    ghost predicate Ready()
      reads this, Arrays()
    {
      Allocated() && (!doInit ==> Generated(256) && RconReady()) && (!ktInit ==> KeyTablesOf(256))
    }

    /** aes_gen_tables, the loop for the round constants. */
    method GenRcon()
      requires Allocated()
      modifies rcon
      ensures RconReady()
    {
      hide Word;
      var x: bv8 := 1;
      for i := 0 to 10
        invariant x == RconByte(i)
        invariant forall k :: 0 <= k < i ==> rcon[k] == Word(Col(RconByte(k), 0, 0, 0))
      {
        RconWord(x);
        rcon[i] := (x as bv32) << 24;
        XtimeIsMacro(x);
        x := XTIME(x);
      }
    }

    /** aes_gen_tables, the last loop: forward and reverse tables. */
    method GenRoundTables(pow: array<bv8>, log: array<bv8>)
      requires Allocated() && pow.Length == log.Length == 256 && LogTables(pow[..], log[..], 256)
      requires TableOf(fsb[..], FSb, 256) && TableOf(rsb[..], RSb, 256)
      modifies ft0, ft1, ft2, ft3, rt0, rt1, rt2, rt3
      ensures Generated(256)
    {
      hide LogTables, Index, Generated, TableOf, Allocated;
      var c: bv8 := 0;  // the counter as an unsigned char
      IndexValues();
      NothingGenerated();
      for i := 0 to 256
        invariant i < 256 ==> Index(c) == i
        invariant pow[..] == old(pow[..]) && log[..] == old(log[..]) && Generated(i)
      {
        StepRoundTables(c, pow, log);
        NextIndex(c);
        c := c + 1;
      }
    }

    lemma NothingGenerated()
      requires Allocated() && TableOf(fsb[..], FSb, 256) && TableOf(rsb[..], RSb, 256)
      ensures Generated(0)
    {
      hide Entry, Index;
    }

    method StepRoundTables(c: bv8, pow: array<bv8>, log: array<bv8>)
      requires Allocated() && pow.Length == log.Length == 256 && LogTables(pow[..], log[..], 256)
      requires Generated(Index(c))
      modifies ft0, ft1, ft2, ft3, rt0, rt1, rt2, rt3
      ensures Generated(Index(c) + 1)
    {
      hide LogTables, Index, XTIME, RotR8, Word, SBox, InvSBox;
      var x := (fsb[Index(c)] & 0xff) as bv8;
      var y := (rsb[Index(c)] & 0xff) as bv8;
      ByteBack(SBox(c));
      ByteBack(InvSBox(c));
      TableStep(ft0[..], FT(0), c); TableStep(ft1[..], FT(1), c); TableStep(ft2[..], FT(2), c); TableStep(ft3[..], FT(3), c);
      TableStep(rt0[..], RT(0), c); TableStep(rt1[..], RT(1), c); TableStep(rt2[..], RT(2), c); TableStep(rt3[..], RT(3), c);
      StoreForward(c, x, ft0, ft1, ft2, ft3);
      StoreReverse(c, y, pow, log, rt0, rt1, rt2, rt3);
    }

    /** aes_gen_tables. */
    method GenTables()
      requires Allocated()
      modifies fsb, rsb, ft0, ft1, ft2, ft3, rt0, rt1, rt2, rt3, rcon
      ensures Generated(256) && RconReady()
    {
      hide LogTables, TableOf, Generated, RconReady, SBoxTables;
      var pow, log := GenPowLog();
      LogLengths(pow[..], log[..]);
      GenRcon();
      GenSBoxes(pow, log, fsb, rsb);
      SBoxTablesFull(fsb[..], rsb[..]);
      GenRoundTables(pow, log);
    }
  }
}
