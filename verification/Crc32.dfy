/** CRC-32C, section 12.1 of RFC 3720, and the slicing-by-8 form of ul0crc32.cc. */
module Crc32c {
  import opened MachineWords

  /** The polynomial 0x1EDC6F41, bit-reversed. */
  const POLY: bv32 := 0x82f63b78

  // ----- the definition: one message bit at a time, the least significant bit of a byte first

  function BitStep(c: bv32, bit: bv32): bv32 {
    if (c & 1) != (bit & 1) then Xor(c >> 1, POLY) else c >> 1
  }

  function ByteBits(c: bv32, b: bv8): bv32 {
    var d := b as bv32;
    var c1 := BitStep(c, d & 1);
    var c2 := BitStep(c1, (d >> 1) & 1);
    var c3 := BitStep(c2, (d >> 2) & 1);
    var c4 := BitStep(c3, (d >> 3) & 1);
    var c5 := BitStep(c4, (d >> 4) & 1);
    var c6 := BitStep(c5, (d >> 5) & 1);
    var c7 := BitStep(c6, (d >> 6) & 1);
    BitStep(c7, (d >> 7) & 1)
  }

  /** The register after a message. */
  function Register(c: bv32, s: seq<bv8>): bv32 {
    if s == [] then c else ByteBits(Register(c, s[..|s| - 1]), s[|s| - 1])
  }

  function Crc(s: seq<bv8>): bv32 {
    Register(0xFFFFFFFF, s) ^ 0xFFFFFFFF
  }

  // ----- shifting zero bytes in

  /** One zero bit. */
  function Shift(c: bv32): bv32 {
    if c & 1 == 1 then Xor(POLY, c >> 1) else c >> 1
  }

  function Shift2(c: bv32): bv32 {
    Shift(Shift(c))
  }

  function Shift4(c: bv32): bv32 {
    Shift2(Shift2(c))
  }

  /** One zero byte. */
  function Zero(c: bv32): bv32 {
    Shift4(Shift4(c))
  }

  /** n zero bytes. */
  function Zeros(n: nat, c: bv32): bv32 {
    if n == 0 then c else Zero(Zeros(n - 1, c))
  }

  lemma ShiftOverXor(a: bv32, b: bv32)
    ensures (a ^ b) >> 1 == (a >> 1) ^ (b >> 1)
  {
  }

  lemma ShiftedXor(a: bv32, b: bv32)
    ensures Xor(a, b) >> 1 == Xor(a >> 1, b >> 1)
  {
    hide Xor;
    XorIs(a, b);
    XorIs(a >> 1, b >> 1);
    ShiftOverXor(a, b);
  }

  lemma LowBit(a: bv32)
    ensures a & 1 == 0 || a & 1 == 1
  {
  }

  lemma LowBitXor(a: bv32, b: bv32)
    ensures a & 1 == b & 1 ==> Xor(a, b) & 1 == 0
    ensures a & 1 != b & 1 ==> Xor(a, b) & 1 == 1
  {
  }

  lemma XorBits(a: bv32, b: bv32)
    ensures Xor(a, b) >> 1 == Xor(a >> 1, b >> 1)
    ensures Xor(a, b) & 1 == (if a & 1 == b & 1 then 0 else 1)
    ensures a & 1 == 0 || a & 1 == 1
    ensures b & 1 == 0 || b & 1 == 1
  {
    hide Xor;
    ShiftedXor(a, b);
    LowBit(a);
    LowBit(b);
    LowBitXor(a, b);
  }

  lemma XorCancels(p: bv32, a: bv32, b: bv32)
    ensures Xor(Xor(p, a), Xor(p, b)) == Xor(a, b)
  {
    hide Xor;
    XorCommutes(p, a);
    XorAssociates(a, p, Xor(p, b));
    XorAssociates(p, p, b);
    XorSelf(p);
    XorZero(b);
  }

  lemma ShiftXor(a: bv32, b: bv32)
    ensures Shift(Xor(a, b)) == Xor(Shift(a), Shift(b))
  {
    hide Xor;
    XorBits(a, b);
    // The polynomial added twice cancels.
    XorCancels(POLY, a >> 1, b >> 1);
    XorAssociates(POLY, a >> 1, b >> 1);
    XorCommutes(POLY, b >> 1);
    XorAssociates(a >> 1, b >> 1, POLY);
    XorCommutes(Xor(a >> 1, b >> 1), POLY);
  }

  lemma ZeroXor(a: bv32, b: bv32)
    ensures Zero(Xor(a, b)) == Xor(Zero(a), Zero(b))
  {
    hide Shift, Xor;
    ShiftXor(a, b);
    ShiftXor(Shift(a), Shift(b));
    ShiftXor(Shift2(a), Shift2(b));
    ShiftXor(Shift(Shift2(a)), Shift(Shift2(b)));
    ShiftXor(Shift4(a), Shift4(b));
    ShiftXor(Shift(Shift4(a)), Shift(Shift4(b)));
    ShiftXor(Shift2(Shift4(a)), Shift2(Shift4(b)));
    ShiftXor(Shift(Shift2(Shift4(a))), Shift(Shift2(Shift4(b))));
  }

  lemma {:induction false} ZerosXor(n: nat, a: bv32, b: bv32)
    ensures Zeros(n, Xor(a, b)) == Xor(Zeros(n, a), Zeros(n, b))
  {
    hide Zero, Xor;
    if n > 0 {
      ZerosXor(n - 1, a, b);
      ZeroXor(Zeros(n - 1, a), Zeros(n - 1, b));
    }
  }

  lemma {:induction false} ZerosNext(n: nat, c: bv32)
    ensures Zeros(n + 1, c) == Zeros(n, Zero(c))
  {
    hide Zero;
    if n > 0 {
      ZerosNext(n - 1, c);
    }
  }

  lemma ShiftEven4(c: bv32)
    requires c & 0xF == 0
    ensures Shift4(c) == c >> 4
  {
  }

  /** A register whose low byte is zero is just shifted. */
  lemma ZeroOfHigh(c: bv32)
    ensures Zero(c & 0xFFFFFF00) == c >> 8
  {
    hide Shift2, Shift4;
    var h := c & 0xFFFFFF00;
    ShiftEven4(h);
    ShiftEven4(h >> 4);
  }

  lemma SplitLow(c: bv32)
    ensures Xor(c & 0xFF, c & 0xFFFFFF00) == c
  {
  }

  lemma BitOfBit(d: bv32)
    ensures (d & 1) & 1 == d & 1
  {
  }

  /** Adding all remaining bits at once and shifting, or adding one and shifting, leaves the rest to be added. */
  lemma OneBit(c: bv32, d: bv32)
    ensures Shift(Xor(c, d)) == Xor(BitStep(c, d & 1), d >> 1)
  {
    hide Xor;
    XorBits(c, d);
    XorAssociates(c >> 1, POLY, d >> 1);
    XorAssociates(POLY, c >> 1, d >> 1);
    XorCommutes(POLY, c >> 1);
    BitOfBit(d);
  }

  lemma ByteShifts(d: bv32)
    requires d <= 0xFF
    ensures (d >> 1) >> 1 == d >> 2 && (d >> 2) >> 1 == d >> 3 && (d >> 3) >> 1 == d >> 4 && (d >> 4) >> 1 == d >> 5
    ensures (d >> 5) >> 1 == d >> 6 && (d >> 6) >> 1 == d >> 7 && (d >> 7) >> 1 == 0
  {
  }

  lemma ByteRange(b: bv8)
    ensures b as bv32 <= 0xFF
  {
  }

  /** A byte step is a zero byte on the register with the byte added. */
  lemma ByteIsZero(c: bv32, b: bv8)
    ensures ByteBits(c, b) == Zero(Xor(c, b as bv32))
  {
    hide Shift, Xor, BitStep;
    var d := b as bv32;
    ByteRange(b);
    ByteShifts(d);
    OneBit(c, d);
    var c1 := BitStep(c, d & 1);
    OneBit(c1, d >> 1);
    var c2 := BitStep(c1, (d >> 1) & 1);
    OneBit(c2, d >> 2);
    var c3 := BitStep(c2, (d >> 2) & 1);
    OneBit(c3, d >> 3);
    var c4 := BitStep(c3, (d >> 3) & 1);
    OneBit(c4, d >> 4);
    var c5 := BitStep(c4, (d >> 4) & 1);
    OneBit(c5, d >> 5);
    var c6 := BitStep(c5, (d >> 5) & 1);
    OneBit(c6, d >> 6);
    var c7 := BitStep(c6, (d >> 6) & 1);
    OneBit(c7, d >> 7);
    XorZero(BitStep(c7, (d >> 7) & 1));
  }

  // ----- what the tables hold

  /** Table k advances a byte through k + 1 zero bytes. */
  function Entry(k: nat, b: bv8): bv32 {
    Zeros(k + 1, b as bv32)
  }

  function Low(c: bv32): bv8 {
    (c & 0xFF) as bv8
  }

  lemma LowIs(c: bv32)
    ensures Low(c) as bv32 == c & 0xFF
  {
  }

  lemma LowOfXor(c: bv32, b: bv8)
    ensures Low(Xor(c, b as bv32)) as bv32 == Xor(c & 0xFF, b as bv32)
    ensures Xor(c, b as bv32) & 0xFFFFFF00 == c & 0xFFFFFF00
    ensures Xor(c, b as bv32) >> 8 == c >> 8
  {
  }

  /** A zero byte through table 0. */
  lemma ZeroByTable(c: bv32)
    ensures Zero(c) == Xor(Entry(0, Low(c)), c >> 8)
  {
    hide Zero, Xor, Low;
    SplitLow(c);
    LowIs(c);
    ZeroXor(c & 0xFF, c & 0xFFFFFF00);
    ZeroOfHigh(c);
    assert Zeros(1, c & 0xFF) == Zero(Zeros(0, c & 0xFF));
  }

  /** A byte step through table 0, the slice8_byte macro on a 32-bit register. */
  lemma ByteByTable(c: bv32, b: bv8)
    ensures ByteBits(c, b) == Xor(c >> 8, Entry(0, Low(Xor(c, b as bv32))))
  {
    hide Zero, Xor, Low, ByteBits, Entry;
    ByteIsZero(c, b);
    ZeroByTable(Xor(c, b as bv32));
    LowOfXor(c, b);
    XorCommutes(c >> 8, Entry(0, Low(Xor(c, b as bv32))));
  }

  /** How table k is made from table k - 1. */
  lemma NextEntry(k: nat, b: bv8)
    ensures Entry(k + 1, b) == Xor(Entry(0, Low(Entry(k, b))), Entry(k, b) >> 8)
  {
    hide Zero, Xor, Low;
    ZeroByTable(Entry(k, b));
  }

  // ----- eight bytes at once

  /** Bytes shifted into an empty register. */
  function Accumulated(x: seq<bv8>): bv32 {
    if x == [] then 0 else Zero(Xor(Accumulated(x[..|x| - 1]), x[|x| - 1] as bv32))
  }

  /** A byte is shifted out. */
  function Drop(c: bv32): bv32 {
    c >> 8
  }

  /** One step: what has been accumulated and what is left of the old register stay apart. */
  lemma PeelByte(acc: bv32, c: bv32, b: bv8)
    ensures ByteBits(Xor(acc, c), b) == Xor(Zero(Xor(acc, Low(Xor(c, b as bv32)) as bv32)), Drop(c))
  {
    hide Zero, Xor, Low, ByteBits;
    var d := b as bv32;
    var l, h := c & 0xFF, c & 0xFFFFFF00;
    ByteIsZero(Xor(acc, c), b);
    SplitLow(c);
    LowOfXor(c, b);
    // acc ^ (l ^ h) ^ d == (acc ^ (l ^ d)) ^ h
    XorAssociates(acc, c, d);
    XorAssociates(l, h, d);
    XorCommutes(h, d);
    XorAssociates(l, d, h);
    XorAssociates(acc, Xor(l, d), h);
    ZeroXor(Xor(acc, Xor(l, d)), h);
    ZeroOfHigh(c);
  }

  lemma AccumulateNext(x: seq<bv8>, b: bv8)
    ensures Accumulated(x + [b]) == Zero(Xor(Accumulated(x), b as bv32))
  {
    assert (x + [b])[..|x|] == x;
  }

  lemma RegisterNext(c: bv32, s: seq<bv8>, b: bv8)
    ensures Register(c, s + [b]) == ByteBits(Register(c, s), b)
  {
    assert (s + [b])[..|s|] == s;
  }

  /** What is left of a register after n bytes have been shifted out. */
  function Shifted(c: bv32, n: nat): bv32 {
    if n == 0 then c else Drop(Shifted(c, n - 1))
  }

  /** The bytes that are looked up: the data, with the register added as far as it reaches. */
  function Mixed(c: bv32, s: seq<bv8>): (x: seq<bv8>)
    ensures |x| == |s|
  {
    if s == [] then []
    else var n := |s| - 1; Mixed(c, s[..n]) + [Low(Xor(Shifted(c, n), s[n] as bv32))]
  }

  lemma MixedNext(c: bv32, s: seq<bv8>, b: bv8)
    ensures Mixed(c, s + [b]) == Mixed(c, s) + [Low(Xor(Shifted(c, |s|), b as bv32))]
  {
    assert (s + [b])[..|s|] == s;
  }

  lemma ShiftedNext(c: bv32, n: nat)
    ensures Shifted(c, n + 1) == Drop(Shifted(c, n))
  {
  }

  lemma PeeledNothing(c: bv32)
    ensures Register(c, []) == Xor(Accumulated(Mixed(c, [])), Shifted(c, 0))
  {
    XorZero(c);
  }

  /** A message can be shifted into an empty register when the old register is added to its bytes. */
  lemma {:induction false} RegisterPeeled(c: bv32, s: seq<bv8>)
    ensures Register(c, s) == Xor(Accumulated(Mixed(c, s)), Shifted(c, |s|))
  {
    hide Zero, Xor, Low, ByteBits, Register, Mixed, Shifted, Accumulated, Drop;
    if s == [] {
      PeeledNothing(c);
    } else {
      var n := |s| - 1;
      var front, b := s[..n], s[n];
      assert s == front + [b];
      RegisterPeeled(c, front);
      RegisterNext(c, front, b);
      PeelByte(Accumulated(Mixed(c, front)), Shifted(c, n), b);
      MixedNext(c, front, b);
      AccumulateNext(Mixed(c, front), Low(Xor(Shifted(c, n), b as bv32)));
      ShiftedNext(c, n);
    }
  }

  lemma NotShifted(c: bv32)
    ensures Shifted(c, 0) == c
  {
  }

  lemma DroppedBytes(c: bv32)
    ensures Drop(c) == c >> 8 && Drop(c >> 8) == c >> 16 && Drop(c >> 16) == c >> 24 && Drop(c >> 24) == 0 && Drop(0) == 0
  {
  }

  lemma ShiftedOut(c: bv32)
    ensures Shifted(c, 0) == c && Shifted(c, 1) == c >> 8 && Shifted(c, 2) == c >> 16 && Shifted(c, 3) == c >> 24
    ensures Shifted(c, 4) == Shifted(c, 5) == Shifted(c, 6) == Shifted(c, 7) == Shifted(c, 8) == 0
  {
    hide Shifted, Drop;
    DroppedBytes(c);
    NotShifted(c);
    ShiftedNext(c, 0);
    ShiftedNext(c, 1);
    ShiftedNext(c, 2);
    ShiftedNext(c, 3);
    ShiftedNext(c, 4);
    ShiftedNext(c, 5);
    ShiftedNext(c, 6);
    ShiftedNext(c, 7);
  }

  lemma AccumulatedZeros(n: nat, x: seq<bv8>, b: bv8)
    ensures Zeros(n, Accumulated(x + [b])) == Xor(Zeros(n + 1, Accumulated(x)), Entry(n, b))
  {
    hide Zero, Xor, Accumulated;
    AccumulateNext(x, b);
    ZerosNext(n, Xor(Accumulated(x), b as bv32));
    ZerosXor(n + 1, Accumulated(x), b as bv32);
  }

  /** Eight table look-ups. */
  function Lookups(x: seq<bv8>): bv32
    requires |x| == 8
  {
    Xor(Xor(Xor(Xor(Xor(Xor(Xor(Entry(7, x[0]), Entry(6, x[1])), Entry(5, x[2])), Entry(4, x[3])), Entry(3, x[4])),
                Entry(2, x[5])), Entry(1, x[6])), Entry(0, x[7]))
  }

  lemma ZeroOfZero()
    ensures Zero(0) == 0
  {
  }

  lemma {:induction false} ZerosOfZero(n: nat)
    ensures Zeros(n, 0) == 0
  {
    if n > 0 {
      ZerosOfZero(n - 1);
      ZeroOfZero();
    }
  }

  lemma NoZeros(c: bv32)
    ensures Zeros(0, c) == c && Accumulated([]) == 0
  {
  }

  lemma EightLookups(x: seq<bv8>)
    requires |x| == 8
    ensures Accumulated(x) == Lookups(x)
  {
    hide Xor, Entry, Accumulated, Zeros;
    var p1 := [] + [x[0]];
    var p2 := p1 + [x[1]];
    var p3 := p2 + [x[2]];
    var p4 := p3 + [x[3]];
    var p5 := p4 + [x[4]];
    var p6 := p5 + [x[5]];
    var p7 := p6 + [x[6]];
    assert x == p7 + [x[7]];
    AccumulatedZeros(0, p7, x[7]);
    AccumulatedZeros(1, p6, x[6]);
    AccumulatedZeros(2, p5, x[5]);
    AccumulatedZeros(3, p4, x[4]);
    AccumulatedZeros(4, p3, x[3]);
    AccumulatedZeros(5, p2, x[2]);
    AccumulatedZeros(6, p1, x[1]);
    AccumulatedZeros(7, [], x[0]);
    NoZeros(Accumulated(x));
    ZerosOfZero(8);
    XorZero(Entry(7, x[0]));
  }

  /** One quadword step is eight byte steps. */
  lemma QuadwordIsEightBytes(c: bv32, s: seq<bv8>)
    requires |s| == 8
    ensures Register(c, s) == Lookups(Mixed(c, s))
  {
    hide Xor, Accumulated, Lookups, Mixed, Shifted, Register;
    RegisterPeeled(c, s);
    ShiftedOut(c);
    XorZero(Accumulated(Mixed(c, s)));
    EightLookups(Mixed(c, s));
  }

  lemma {:induction false} RegisterConcat(c: bv32, a: seq<bv8>, b: seq<bv8>)
    ensures Register(c, a + b) == Register(Register(c, a), b)
  {
    hide ByteBits;
    if b == [] {
      assert a + b == a;
    } else {
      var n := |b| - 1;
      RegisterConcat(c, a, b[..n]);
      assert (a + b)[..|a + b| - 1] == a + b[..n];
    }
  }

  // ----- the 64-bit accumulator

  /** A little-endian load of eight bytes. */
  function Load64(d0: bv8, d1: bv8, d2: bv8, d3: bv8, d4: bv8, d5: bv8, d6: bv8, d7: bv8): bv64 {
    (d0 as bv64) | ((d1 as bv64) << 8) | ((d2 as bv64) << 16) | ((d3 as bv64) << 24)
    | ((d4 as bv64) << 32) | ((d5 as bv64) << 40) | ((d6 as bv64) << 48) | ((d7 as bv64) << 56)
  }

  /** A 32-bit register in the 64-bit accumulator. */
  function Wide(c: bv32): bv64 {
    c as bv64
  }

  function Xor64(v: bv64, w: bv64): bv64 {
    v ^ w
  }

  /** Byte i of the accumulator. */
  function Byte64(w: bv64, i: nat): bv8
    requires i < 8
  {
    match i
    case 0 => (w & 0xFF) as bv8
    case 1 => ((w >> 8) & 0xFF) as bv8
    case 2 => ((w >> 16) & 0xFF) as bv8
    case 3 => ((w >> 24) & 0xFF) as bv8
    case 4 => ((w >> 32) & 0xFF) as bv8
    case 5 => ((w >> 40) & 0xFF) as bv8
    case 6 => ((w >> 48) & 0xFF) as bv8
    case 7 => (w >> 56) as bv8
  }

  function Loaded(c: bv32, d0: bv8, d1: bv8, d2: bv8, d3: bv8, d4: bv8, d5: bv8, d6: bv8, d7: bv8): bv64 {
    Xor64(Wide(c), Load64(d0, d1, d2, d3, d4, d5, d6, d7))
  }

  function LowXor(c: bv32, b: bv8): bv8 {
    ((c ^ (b as bv32)) & 0xFF) as bv8
  }

  lemma LowXorIs(c: bv32, b: bv8)
    ensures Low(Xor(c, b as bv32)) == LowXor(c, b)
  {
  }

  lemma LoadedRaw(c: bv32, d0: bv8, d1: bv8, d2: bv8, d3: bv8, d4: bv8, d5: bv8, d6: bv8, d7: bv8, w: bv64)
    requires w == Loaded(c, d0, d1, d2, d3, d4, d5, d6, d7)
    ensures (w & 0xFF) as bv8 == LowXor(c, d0) && ((w >> 8) & 0xFF) as bv8 == LowXor(c >> 8, d1)
    ensures ((w >> 16) & 0xFF) as bv8 == LowXor(c >> 16, d2) && ((w >> 24) & 0xFF) as bv8 == LowXor(c >> 24, d3)
    ensures ((w >> 32) & 0xFF) as bv8 == LowXor(0, d4) && ((w >> 40) & 0xFF) as bv8 == LowXor(0, d5)
    ensures ((w >> 48) & 0xFF) as bv8 == LowXor(0, d6) && (w >> 56) as bv8 == LowXor(0, d7)
  {
  }

  lemma LoadedBytes(c: bv32, d0: bv8, d1: bv8, d2: bv8, d3: bv8, d4: bv8, d5: bv8, d6: bv8, d7: bv8, w: bv64)
    requires w == Loaded(c, d0, d1, d2, d3, d4, d5, d6, d7)
    ensures Byte64(w, 0) == LowXor(c, d0) && Byte64(w, 1) == LowXor(c >> 8, d1)
    ensures Byte64(w, 2) == LowXor(c >> 16, d2) && Byte64(w, 3) == LowXor(c >> 24, d3)
    ensures Byte64(w, 4) == LowXor(0, d4) && Byte64(w, 5) == LowXor(0, d5)
    ensures Byte64(w, 6) == LowXor(0, d6) && Byte64(w, 7) == LowXor(0, d7)
  {
    hide Loaded, LowXor;
    LoadedRaw(c, d0, d1, d2, d3, d4, d5, d6, d7, w);
  }

  /** A byte of the accumulator after a load is the one of the data with the one of the register added. */
  lemma LoadedByte(c: bv32, d: seq<bv8>, i: nat)
    requires |d| == 8 && i < 8
    ensures Byte64(Loaded(c, d[0], d[1], d[2], d[3], d[4], d[5], d[6], d[7]), i) == Low(Xor(Shifted(c, i), d[i] as bv32))
  {
    hide Low, Xor, Shifted, Loaded, LowXor, Byte64;
    LoadedBytes(c, d[0], d[1], d[2], d[3], d[4], d[5], d[6], d[7],
                Loaded(c, d[0], d[1], d[2], d[3], d[4], d[5], d[6], d[7]));
    ShiftedOut(c);
    LowXorIs(Shifted(c, i), d[i]);
  }

  lemma ByteStep64(c: bv32, b: bv8)
    ensures Byte64(Xor64(Wide(c), b as bv64), 0) == Low(Xor(c, b as bv32))
    ensures Wide(c) >> 8 == Wide(c >> 8)
  {
  }

  lemma WideXor(a: bv32, b: bv32)
    ensures Xor64(Wide(a), Wide(b)) == Wide(Xor(a, b))
  {
  }

  lemma Complement(c: bv32)
    ensures ((!Wide(c)) & 0xFFFFFFFF) as bv32 == c ^ 0xFFFFFFFF
  {
  }

  lemma {:induction false} MixedAt(c: bv32, s: seq<bv8>, i: nat)
    requires i < |s|
    ensures Mixed(c, s)[i] == Low(Xor(Shifted(c, i), s[i] as bv32))
  {
    hide Low, Xor, Shifted;
    if i < |s| - 1 {
      MixedAt(c, s[..|s| - 1], i);
    }
  }

  lemma MixedByte(c: bv32, d: seq<bv8>, i: nat)
    requires |d| == 8 && i < 8
    ensures Mixed(c, d)[i] == Byte64(Loaded(c, d[0], d[1], d[2], d[3], d[4], d[5], d[6], d[7]), i)
  {
    hide Low, Xor, Loaded, Shifted, Mixed, Byte64;
    MixedAt(c, d, i);
    LoadedByte(c, d, i);
  }

  /** The bytes of the accumulator after the load are the bytes to look up. */
  lemma BytesMixed(c: bv32, d: seq<bv8>, w: bv64, x: seq<bv8>)
    requires |d| == 8 && w == Loaded(c, d[0], d[1], d[2], d[3], d[4], d[5], d[6], d[7])
    requires x == [Byte64(w, 0), Byte64(w, 1), Byte64(w, 2), Byte64(w, 3), Byte64(w, 4), Byte64(w, 5), Byte64(w, 6), Byte64(w, 7)]
    ensures x == Mixed(c, d)
  {
    hide Loaded, Mixed, Byte64;
    forall i | 0 <= i < 8 ensures x[i] == Mixed(c, d)[i] {
      MixedByte(c, d, i);
    }
  }

  lemma ZeroIndex()
    ensures Index(0) == 0
  {
  }

  lemma OnlyIndex(b: bv8)
    ensures forall a: bv8 :: Index(a) == Index(b) ==> a == b
  {
    forall a: bv8 | Index(a) == Index(b) ensures a == b {
      IndexInjective(a, b);
    }
  }

  // ----- the table and the loops over it

  /** k shifts by one bit: the inner loop for table 0. */
  function Shifts(k: nat, c: bv32): bv32 {
    if k == 0 then c else Shift(Shifts(k - 1, c))
  }

  lemma EightShifts(c: bv32)
    ensures Shifts(8, c) == Zero(c)
  {
    hide Shift;
    assert Shifts(1, c) == Shift(Shifts(0, c));
    assert Shifts(2, c) == Shift(Shifts(1, c));
    assert Shifts(3, c) == Shift(Shifts(2, c));
    assert Shifts(4, c) == Shift(Shifts(3, c));
    assert Shifts(5, c) == Shift(Shifts(4, c));
    assert Shifts(6, c) == Shift(Shifts(5, c));
    assert Shifts(7, c) == Shift(Shifts(6, c));
    assert Shifts(8, c) == Shift(Shifts(7, c));
  }

  lemma EntryZero(b: bv8)
    ensures Entry(0, b) == Zero(b as bv32)
  {
    hide Zero;
    assert Zeros(1, b as bv32) == Zero(Zeros(0, b as bv32));
  }

  /** ut_crc32_slice8_table and its flag. */
  class Slice8 {
    const table: array2<bv32>
    var initialized: bool

    constructor ()
      ensures Valid() && !initialized && fresh(table)
    {
      table := new bv32[8, 256];
      initialized := false;
    }

    ghost predicate Allocated() {
      table.Length0 == 8 && table.Length1 == 256
    }

    /** Table k holds its entries for the bytes below n. */
    ghost predicate Filled(k: nat, n: nat)
      requires Allocated() && k < 8
      reads table
    {
      forall b: bv8 :: Index(b) < n ==> table[k, Index(b)] == Entry(k, b)
    }

    ghost predicate AllFilled(n: nat)
      requires Allocated()
      reads table
    {
      forall k :: 0 <= k < 8 ==> Filled(k, n)
    }

    ghost predicate Valid()
      reads this, table
    {
      Allocated() && (initialized ==> AllFilled(256))
    }

    /** The first loop: table 0, eight shifts for every byte. */
    method InitFirst()
      requires Allocated()
      modifies table
      ensures Filled(0, 256)
    {
      hide Zero, Shift, Index, Entry;
      var b: bv8 := 0;
      ZeroIndex();
      for n := 0 to 256
        invariant n < 256 ==> Index(b) == n
        invariant Filled(0, n)
      {
        var c := b as bv32;
        for k := 0 to 8
          invariant c == Shifts(k, b as bv32) && Filled(0, n)
        {
          c := ShiftOnce(c);
        }
        EightShifts(b as bv32);
        EntryZero(b);
        OnlyIndex(b);
        table[0, n] := c;
        NextIndex(b);
        b := b + 1;
      }
    }

    method ShiftOnce(c: bv32) returns (c': bv32)
      ensures c' == Shift(c)
    {
      c' := if c & 1 == 1 then Xor(POLY, c >> 1) else c >> 1;
    }

    /** The second loop: tables 1 to 7, each from the one before. */
    method InitOthers()
      requires Allocated() && Filled(0, 256)
      modifies table
      ensures AllFilled(256)
    {
      hide Index, Entry;
      var b: bv8 := 0;
      ZeroIndex();
      for n := 0 to 256
        invariant n < 256 ==> Index(b) == n
        invariant Filled(0, 256) && AllFilled(n)
      {
        InitByte(b);
        NextIndex(b);
        b := b + 1;
      }
    }

    method InitByte(b: bv8)
      requires Allocated() && Filled(0, 256) && AllFilled(Index(b))
      modifies table
      ensures Filled(0, 256) && AllFilled(Index(b) + 1)
    {
      hide Index, Entry, Xor, Low;
      OnlyIndex(b);
      var c := table[0, Index(b)];
      for k := 1 to 8
        invariant c == Entry(k - 1, b)
        invariant Filled(0, 256) && AllFilled(Index(b))
        invariant forall j :: 0 <= j < k ==> table[j, Index(b)] == Entry(j, b)
      {
        NextEntry(k - 1, b);
        assert Index(Low(c)) < 256;
        assert table[0, Index(Low(c))] == Entry(0, Low(c));
        c := Xor(table[0, Index(Low(c))], c >> 8);
        label before:
        table[k, Index(b)] := c;
        forall j, a: bv8 | 0 <= j < 8 && Index(a) < Index(b) ensures table[j, Index(a)] == Entry(j, a) {
          assert old@before(Filled(j, Index(b)));
        }
      }
      forall j, a: bv8 | 0 <= j < 8 && Index(a) < Index(b) + 1 ensures table[j, Index(a)] == Entry(j, a) {
        if Index(a) < Index(b) {
          assert Filled(j, Index(b));
        } else {
          assert a == b;
        }
      }
    }

    /** ut_crc32_slice8_table_init. */
    method TableInit()
      requires Valid()
      modifies this, table
      ensures Valid() && initialized
    {
      InitFirst();
      InitOthers();
      initialized := true;
    }

    // ----- the two steps

    lemma TableAt(k: nat, b: bv8)
      requires Valid() && initialized && k < 8
      ensures table.Length0 == 8 && table.Length1 == 256 && table[k, Index(b)] == Entry(k, b)
    {
      hide Entry, Index;
      assert Filled(k, 256);
    }

    /** ut_crc32_slice8_byte on the 64-bit accumulator, whose high half stays zero. */
    method Byte(crc: bv64, b: bv8, ghost c: bv32) returns (crc': bv64)
      requires Valid() && initialized && crc == Wide(c)
      ensures crc' == Wide(ByteBits(c, b))
    {
      hide Entry, Index, Low, Xor, ByteBits, Filled, Wide, Xor64, Byte64;
      ByteStep64(c, b);
      ByteByTable(c, b);
      var i := Byte64(Xor64(crc, b as bv64), 0);
      TableAt(0, i);
      WideXor(c >> 8, Entry(0, i));
      crc' := Xor64(crc >> 8, Wide(table[0, Index(i)]));
    }

    /** ut_crc32_slice8_quadword. */
    method Quadword(crc: bv64, d: seq<bv8>, ghost c: bv32) returns (crc': bv64)
      requires Valid() && initialized && crc == Wide(c) && |d| == 8
      ensures crc' == Wide(Register(c, d))
    {
      hide Entry, Index, Low, Xor, Register, Load64, Mixed, Wide, Xor64, Byte64, Filled;
      var w := Xor64(crc, Load64(d[0], d[1], d[2], d[3], d[4], d[5], d[6], d[7]));
      var x := [Byte64(w, 0), Byte64(w, 1), Byte64(w, 2), Byte64(w, 3), Byte64(w, 4), Byte64(w, 5), Byte64(w, 6), Byte64(w, 7)];
      BytesMixed(c, d, w, x);
      QuadwordIsEightBytes(c, d);
      var r := LookUpEight(x);
      crc' := Wide(r);
    }

    method LookUpEight(x: seq<bv8>) returns (crc: bv32)
      requires Valid() && initialized && |x| == 8
      ensures crc == Lookups(x)
    {
      hide Entry, Index, Xor, Filled;
      TableAt(7, x[0]); TableAt(6, x[1]); TableAt(5, x[2]); TableAt(4, x[3]);
      TableAt(3, x[4]); TableAt(2, x[5]); TableAt(1, x[6]); TableAt(0, x[7]);
      crc := Xor(Xor(Xor(Xor(Xor(Xor(Xor(table[7, Index(x[0])], table[6, Index(x[1])]), table[5, Index(x[2])]),
                             table[4, Index(x[3])]), table[3, Index(x[4])]), table[2, Index(x[5])]),
                     table[1, Index(x[6])]), table[0, Index(x[7])]);
    }

    /** ut_crc32_slice8: bytes up to an aligned address, four quadwords at a time, single quadwords, bytes. */
    method Compute(buf: array<bv8>, address: nat, len: nat) returns (crc: bv32)
      requires Valid() && initialized && len <= buf.Length
      ensures crc == Crc(buf[..len])
    {
      hide Register, Valid, Wide, ByteBits;
      var acc: bv64 := 0xFFFFFFFF;
      var p := 0;
      Begin(buf);
      while p < len && (address + p) % 8 != 0
        invariant p <= len && acc == Wide(Register(0xFFFFFFFF, buf[..p]))
      {
        acc, p := NextByte(acc, buf, p);
      }
      while len - p >= 32
        invariant p <= len && acc == Wide(Register(0xFFFFFFFF, buf[..p]))
      {
        acc, p := NextQuadword(acc, buf, p);
        acc, p := NextQuadword(acc, buf, p);
        acc, p := NextQuadword(acc, buf, p);
        acc, p := NextQuadword(acc, buf, p);
      }
      while len - p >= 8
        invariant p <= len && acc == Wide(Register(0xFFFFFFFF, buf[..p]))
      {
        acc, p := NextQuadword(acc, buf, p);
      }
      while len - p > 0
        invariant p <= len && acc == Wide(Register(0xFFFFFFFF, buf[..p]))
      {
        acc, p := NextByte(acc, buf, p);
      }
      crc := Finish(acc, Register(0xFFFFFFFF, buf[..len]));
    }

    /** The result: the complement of the lower half. */
    static method Finish(acc: bv64, ghost c: bv32) returns (crc: bv32)
      requires acc == Wide(c)
      ensures crc == c ^ 0xFFFFFFFF
    {
      Complement(c);
      crc := ((!acc) & 0xFFFFFFFF) as bv32;
    }

    lemma Begin(buf: array<bv8>)
      ensures 0xFFFFFFFF == Wide(Register(0xFFFFFFFF, buf[..0]))
    {
    }

    method NextByte(acc: bv64, buf: array<bv8>, p: nat) returns (acc': bv64, p': nat)
      requires Valid() && initialized && p < buf.Length && acc == Wide(Register(0xFFFFFFFF, buf[..p]))
      ensures p' == p + 1 && acc' == Wide(Register(0xFFFFFFFF, buf[..p']))
    {
      hide Register, Valid, Wide, ByteBits;
      ghost var c := Register(0xFFFFFFFF, buf[..p]);
      RegisterNext(0xFFFFFFFF, buf[..p], buf[p]);
      assert buf[..p + 1] == buf[..p] + [buf[p]];
      acc' := Byte(acc, buf[p], c);
      p' := p + 1;
    }

    method NextQuadword(acc: bv64, buf: array<bv8>, p: nat) returns (acc': bv64, p': nat)
      requires Valid() && initialized && p + 8 <= buf.Length && acc == Wide(Register(0xFFFFFFFF, buf[..p]))
      ensures p' == p + 8 && acc' == Wide(Register(0xFFFFFFFF, buf[..p']))
    {
      hide Register, Valid, Wide;
      ghost var c := Register(0xFFFFFFFF, buf[..p]);
      RegisterConcat(0xFFFFFFFF, buf[..p], buf[p..p + 8]);
      assert buf[..p + 8] == buf[..p] + buf[p..p + 8];
      acc' := Quadword(acc, buf[p..p + 8], c);
      p' := p + 8;
    }
  }
}
