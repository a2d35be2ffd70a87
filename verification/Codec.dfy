/** Integers in bytes: mach0data.cc. */
module Codec {
  import opened Words
  import opened Wrappers

  const TWO32 := 0x1_0000_0000

  // ----- big-endian numbers

  /** The k low bytes of n, the most significant first. */
  function BE(n: nat, k: nat): (s: seq<Byte>)
    ensures |s| == k
  {
    if k == 0 then [] else BE(n / 0x100, k - 1) + [n % 0x100]
  }

  function Value(s: seq<Byte>): nat {
    if s == [] then 0 else 0x100 * Value(s[..|s| - 1]) + s[|s| - 1]
  }

  function Limit(k: nat): nat {
    if k == 0 then 1 else 0x100 * Limit(k - 1)
  }

  lemma {:induction false} BERound(n: nat, k: nat)
    requires n < Limit(k)
    ensures Value(BE(n, k)) == n
    decreases k
  {
    if k > 0 {
      BERound(n / 0x100, k - 1);
      assert BE(n, k)[..k - 1] == BE(n / 0x100, k - 1);
    }
  }

  lemma Limits()
    ensures Limit(0) == 1 && Limit(1) == 0x100 && Limit(2) == 0x1_0000 && Limit(3) == 0x100_0000 && Limit(4) == TWO32
    ensures Limit(5) == 0x100 * TWO32
  {
    assert Limit(3) == 0x100 * Limit(2);
    assert Limit(4) == 0x100 * Limit(3);
    assert Limit(5) == 0x100 * Limit(4);
  }

  lemma BENext(n: nat, k: nat)
    ensures BE(n, k + 1) == BE(n / 0x100, k) + [n % 0x100] && BE(n, 0) == []
  {
  }

  lemma Quotients(n: nat)
    ensures n / 0x100 / 0x100 == n / 0x1_0000 && n / 0x1_0000 / 0x100 == n / 0x100_0000
  {
  }

  // The bytes of small numbers written out.

  lemma BEOne(n: nat)
    ensures BE(n, 1) == [n % 0x100]
  {
    hide BE;
    BENext(n, 0);
    BENext(n / 0x100, 0);
  }

  lemma BETwo(n: nat)
    ensures BE(n, 2) == [n / 0x100 % 0x100, n % 0x100]
  {
    hide BE;
    BENext(n, 1);
    BEOne(n / 0x100);
  }

  lemma BEThree(n: nat)
    ensures BE(n, 3) == [n / 0x1_0000 % 0x100, n / 0x100 % 0x100, n % 0x100]
  {
    hide BE;
    BENext(n, 2);
    BETwo(n / 0x100);
    Quotients(n);
  }

  lemma BEFour(n: nat)
    ensures BE(n, 4) == [n / 0x100_0000 % 0x100, n / 0x1_0000 % 0x100, n / 0x100 % 0x100, n % 0x100]
  {
    hide BE;
    BENext(n, 3);
    BEThree(n / 0x100);
    Quotients(n);
    Quotients(n / 0x100);
  }

  // ----- order of bytes

  /** What memcmp and the length say. */
  predicate BytesLt(a: seq<Byte>, b: seq<Byte>) {
    b != [] && (a == [] || a[0] < b[0] || (a[0] == b[0] && BytesLt(a[1..], b[1..])))
  }

  /** At equal length an earlier difference decides, whatever follows. */
  lemma {:induction false} BytesLtConcat(a: seq<Byte>, b: seq<Byte>, c: seq<Byte>, d: seq<Byte>)
    requires |a| == |b|
    ensures BytesLt(a + c, b + d) <==> BytesLt(a, b) || (a == b && BytesLt(c, d))
  {
    if a == [] {
      assert a + c == c && b + d == d;
    } else {
      BytesLtConcat(a[1..], b[1..], c, d);
      assert (a + c)[1..] == a[1..] + c && (b + d)[1..] == b[1..] + d;
      assert a == [a[0]] + a[1..] && b == [b[0]] + b[1..];
    }
  }

  lemma {:induction false} BEOrder(a: nat, b: nat, k: nat)
    requires a < Limit(k) && b < Limit(k)
    ensures BytesLt(BE(a, k), BE(b, k)) <==> a < b
    ensures BE(a, k) == BE(b, k) <==> a == b
    decreases k
  {
    BERound(a, k);
    BERound(b, k);
    if k > 0 {
      BEOrder(a / 0x100, b / 0x100, k - 1);
      BytesLtConcat(BE(a / 0x100, k - 1), BE(b / 0x100, k - 1), [a % 0x100], [b % 0x100]);
      BERound(a / 0x100, k - 1);
      BERound(b / 0x100, k - 1);
    }
  }

  // ----- the compressed form

  /** mach_get_compressed_size. */
  function CompressedSize(n: nat): (k: nat)
    ensures 1 <= k <= 5
  {
    if n < 0x80 then 1 else if n < 0x4000 then 2 else if n < 0x20_0000 then 3 else if n < 0x1000_0000 then 4 else 5
  }

  /** The bits that mark the length, in a field of the length they mark. */
  function Mark(k: nat): nat {
    if k == 2 then 0x8000 else if k == 3 then 0xC0_0000 else if k == 4 then 0xE000_0000 else if k == 5 then 0xF0_0000_0000
    else 0
  }

  /** A number below 2^32 in the compressed form. */
  function Compressed(n: nat): (s: seq<Byte>)
    ensures |s| == CompressedSize(n)
  {
    BE(n + Mark(CompressedSize(n)), CompressedSize(n))
  }

  /** What the first byte says about the length. */
  function SizeFromFlag(flag: Byte): (k: nat)
    ensures 1 <= k <= 5
  {
    if flag < 0x80 then 1 else if flag < 0xC0 then 2 else if flag < 0xE0 then 3 else if flag < 0xF0 then 4 else 5
  }

  function ReadFrom2(b: seq<Byte>, at: nat): nat
    requires at + 2 <= |b|
  {
    (b[at] as nat) * 0x100 + b[at + 1]
  }

  function ReadFrom3(b: seq<Byte>, at: nat): nat
    requires at + 3 <= |b|
  {
    (b[at] as nat) * 0x1_0000 + (b[at + 1] as nat) * 0x100 + b[at + 2]
  }

  function ReadFrom4(b: seq<Byte>, at: nat): nat
    requires at + 4 <= |b|
  {
    (b[at] as nat) * 0x100_0000 + (b[at + 1] as nat) * 0x1_0000 + (b[at + 2] as nat) * 0x100 + b[at + 3]
  }

  /** mach_read_compressed: masks take the length marks away. */
  function ReadCompressed(b: seq<Byte>, at: nat): nat
    requires at < |b| && at + SizeFromFlag(b[at]) <= |b|
  {
    var flag := b[at];
    if flag < 0x80 then flag
    else if flag < 0xC0 then ReadFrom2(b, at) % 0x8000
    else if flag < 0xE0 then ReadFrom3(b, at) % 0x40_0000
    else if flag < 0xF0 then ReadFrom4(b, at) % 0x2000_0000
    else ReadFrom4(b, at + 1)
  }

  /** mach_parse_compressed on the bytes before end_ptr: the position after the number and the number. */
  function ParseCompressed(b: seq<Byte>, ptr: nat): Option<(nat, nat)> {
    if ptr >= |b| then None
    else
      var flag := b[ptr];
      if flag < 0x80 then Some((ptr + 1, flag))
      else if flag < 0xC0 then if |b| < ptr + 2 then None else Some((ptr + 2, ReadFrom2(b, ptr) % 0x8000))
      else if flag < 0xE0 then if |b| < ptr + 3 then None else Some((ptr + 3, ReadFrom3(b, ptr) % 0x40_0000))
      else if flag < 0xF0 then if |b| < ptr + 4 then None else Some((ptr + 4, ReadFrom4(b, ptr) % 0x2000_0000))
      else if |b| < ptr + 5 then None
      else Some((ptr + 5, ReadFrom4(b, ptr + 1)))
  }

  // The bytes of each compressed form.

  lemma CompressedOne(n: nat)
    requires n < 0x80
    ensures Compressed(n) == [n]
  {
    BEOne(n);
  }

  lemma CompressedTwo(n: nat)
    requires 0x80 <= n < 0x4000
    ensures Compressed(n) == [0x80 + n / 0x100, n % 0x100]
  {
    hide BE;
    BETwo(n + 0x8000);
  }

  /** Adding a multiple of the divisor adds to the quotient. */
  lemma Shifted(n: nat, k: nat, d: nat)
    requires d == 1 || d == 0x100 || d == 0x1_0000 || d == 0x100_0000
    ensures (n + k * d) / d == n / d + k
  {
    assert n == d * (n / d) + n % d;
    ModUnique(d, n + k * d, n / d + k, n % d);
  }

  lemma LowPart(n: nat, k: nat)
    requires k % 0x100 == 0
    ensures (n + k) % 0x100 == n % 0x100
  {
  }

  lemma CompressedThree(n: nat)
    requires 0x4000 <= n < 0x20_0000
    ensures Compressed(n) == [0xC0 + n / 0x1_0000, n / 0x100 % 0x100, n % 0x100]
  {
    hide BE;
    BEThree(n + 0xC0_0000);
    Shifted(n, 0xC0, 0x1_0000);
    Shifted(n, 0xC000, 0x100);
    Shifted(n, 0xC0_0000, 1);
    LowPart(n / 0x100, 0xC000);
    LowPart(n, 0xC0_0000);
  }

  lemma CompressedFour(n: nat)
    requires 0x20_0000 <= n < 0x1000_0000
    ensures Compressed(n) == [0xE0 + n / 0x100_0000, n / 0x1_0000 % 0x100, n / 0x100 % 0x100, n % 0x100]
  {
    hide BE;
    BEFour(n + 0xE000_0000);
    Shifted(n, 0xE0, 0x100_0000);
    Shifted(n, 0xE000, 0x1_0000);
    Shifted(n, 0xE0_0000, 0x100);
    LowPart(n / 0x1_0000, 0xE000);
    LowPart(n / 0x100, 0xE0_0000);
    LowPart(n, 0xE000_0000);
  }

  lemma CompressedFive(n: nat)
    requires 0x1000_0000 <= n < TWO32
    ensures Compressed(n) == [0xF0] + BE(n, 4)
  {
    hide BE;
    var a := n / 0x100;
    Shifted(n, 0xF000_0000, 0x100);
    BENext(n + 0xF0_0000_0000, 4);
    BEFour(a + 0xF000_0000);
    Shifted(a, 0xF0, 0x100_0000);
    Shifted(a, 0xF000, 0x1_0000);
    Shifted(a, 0xF0_0000, 0x100);
    LowPart(a / 0x1_0000, 0xF000);
    LowPart(a / 0x100, 0xF0_0000);
    LowPart(a, 0xF000_0000);
    LowPart(n, 0xF0_0000_0000);
    BEFour(n);
    Quotients(n);
    Quotients(a);
  }

  /** The first byte tells the length. */
  lemma FlagTellsSize(n: nat)
    requires n < TWO32
    ensures SizeFromFlag(Compressed(n)[0]) == CompressedSize(n) && Compressed(n)[0] <= 0xF0
  {
    hide Compressed, BE;
    match CompressedSize(n)
    case 1 => CompressedOne(n);
    case 2 => CompressedTwo(n);
    case 3 => CompressedThree(n);
    case 4 => CompressedFour(n);
    case _ => CompressedFive(n);
  }

  /** The first bytes from a position on. */
  ghost predicate StandsAt(b: seq<Byte>, ptr: nat, s: seq<Byte>) {
    ptr + |s| <= |b| && b[ptr..ptr + |s|] == s
  }

  lemma StandsLength(b: seq<Byte>, ptr: nat, s: seq<Byte>)
    requires StandsAt(b, ptr, s)
    ensures ptr + |s| <= |b|
  {
  }

  lemma StandsByte(b: seq<Byte>, ptr: nat, s: seq<Byte>, i: nat)
    requires StandsAt(b, ptr, s) && i < |s|
    ensures b[ptr + i] == s[i]
  {
    assert b[ptr..ptr + |s|][i] == s[i];
  }

  lemma ReadOneTwo(n: nat, b: seq<Byte>, ptr: nat)
    requires n < 0x4000 && StandsAt(b, ptr, Compressed(n))
    ensures ptr < |b| && ptr + SizeFromFlag(b[ptr]) <= |b| && ReadCompressed(b, ptr) == n
  {
    hide Compressed, BE;
    StandsByte(b, ptr, Compressed(n), 0);
    if n < 0x80 {
      CompressedOne(n);
    } else {
      StandsByte(b, ptr, Compressed(n), 1);
      CompressedTwo(n);
    }
  }

  lemma ReadThree(n: nat, b: seq<Byte>, ptr: nat)
    requires 0x4000 <= n < 0x20_0000 && StandsAt(b, ptr, Compressed(n))
    ensures ptr + 3 <= |b| && SizeFromFlag(b[ptr]) == 3 && ReadCompressed(b, ptr) == n
  {
    hide Compressed, BE;
    CompressedThree(n);
    StandsByte(b, ptr, Compressed(n), 0);
    StandsByte(b, ptr, Compressed(n), 1);
    StandsByte(b, ptr, Compressed(n), 2);
  }

  lemma Rebuild(n: nat)
    ensures n == n / 0x100_0000 * 0x100_0000 + n / 0x1_0000 % 0x100 * 0x1_0000 + n / 0x100 % 0x100 * 0x100 + n % 0x100
  {
    Quotients(n);
    var a, b, c := n / 0x100, n / 0x1_0000, n / 0x100_0000;
    assert n == a * 0x100 + n % 0x100 && a == b * 0x100 + a % 0x100 && b == c * 0x100 + b % 0x100;
  }

  lemma ReadFour(n: nat, b: seq<Byte>, ptr: nat)
    requires 0x20_0000 <= n < 0x1000_0000 && StandsAt(b, ptr, Compressed(n))
    ensures ptr + 4 <= |b| && SizeFromFlag(b[ptr]) == 4 && ReadCompressed(b, ptr) == n
  {
    hide Compressed, BE;
    CompressedFour(n);
    StandsByte(b, ptr, Compressed(n), 0);
    StandsByte(b, ptr, Compressed(n), 1);
    StandsByte(b, ptr, Compressed(n), 2);
    StandsByte(b, ptr, Compressed(n), 3);
    Rebuild(n);
    ModUnique(0x2000_0000, n + 0xE000_0000, 7, n);
  }

  lemma HighByte(n: nat)
    requires n < TWO32
    ensures n / 0x100_0000 % 0x100 == n / 0x100_0000
  {
  }

  lemma ReadFour4(n: nat, b: seq<Byte>, ptr: nat)
    requires n < TWO32 && StandsAt(b, ptr, BE(n, 4))
    ensures ptr + 4 <= |b| && ReadFrom4(b, ptr) == n
  {
    hide BE, StandsAt;
    StandsLength(b, ptr, BE(n, 4));
    BEFour(n);
    StandsByte(b, ptr, BE(n, 4), 0);
    StandsByte(b, ptr, BE(n, 4), 1);
    StandsByte(b, ptr, BE(n, 4), 2);
    StandsByte(b, ptr, BE(n, 4), 3);
    Rebuild(n);
    HighByte(n);
  }

  lemma StandsConcat(b: seq<Byte>, ptr: nat, s: seq<Byte>, t: seq<Byte>)
    ensures StandsAt(b, ptr, s + t) <==> StandsAt(b, ptr, s) && StandsAt(b, ptr + |s|, t)
  {
    var m, n := ptr + |s|, ptr + |s| + |t|;
    if n <= |b| {
      assert b[ptr..n] == b[ptr..m] + b[m..n];
      assert (s + t)[..|s|] == s && (s + t)[|s|..] == t;
    }
  }

  lemma ReadFive(n: nat, b: seq<Byte>, ptr: nat)
    requires 0x1000_0000 <= n < TWO32 && StandsAt(b, ptr, Compressed(n))
    ensures ptr + 5 <= |b| && SizeFromFlag(b[ptr]) == 5 && ReadCompressed(b, ptr) == n
  {
    hide Compressed, BE, ReadFrom4;
    CompressedFive(n);
    StandsByte(b, ptr, Compressed(n), 0);
    StandsConcat(b, ptr, [0xF0], BE(n, 4));
    ReadFour4(n, b, ptr + 1);
  }

  /** A compressed number is read back wherever it stands. */
  lemma CompressedReads(n: nat, b: seq<Byte>, ptr: nat)
    requires n < TWO32 && StandsAt(b, ptr, Compressed(n))
    ensures ptr < |b| && ptr + SizeFromFlag(b[ptr]) <= |b| && ReadCompressed(b, ptr) == n
    ensures SizeFromFlag(b[ptr]) == CompressedSize(n)
    ensures ParseCompressed(b, ptr) == Some((ptr + CompressedSize(n), n))
  {
    hide Compressed, ReadFrom2, ReadFrom3, ReadFrom4, StandsAt;
    StandsByte(b, ptr, Compressed(n), 0);
    FlagTellsSize(n);
    if n < 0x4000 {
      ReadOneTwo(n, b, ptr);
    } else if n < 0x20_0000 {
      ReadThree(n, b, ptr);
    } else if n < 0x1000_0000 {
      ReadFour(n, b, ptr);
    } else {
      ReadFive(n, b, ptr);
    }
  }

  /** A compressed number that is cut short is not there yet. */
  lemma CompressedCut(n: nat, b: seq<Byte>, ptr: nat, k: nat)
    requires n < TWO32 && k < CompressedSize(n) && |b| == ptr + k && b[ptr..] == Compressed(n)[..k]
    ensures ParseCompressed(b, ptr) == None
  {
    FlagTellsSize(n);
    if k > 0 {
      assert b[ptr] == b[ptr..][0] == Compressed(n)[0];
    }
  }

  // ----- order

  lemma SizeOrder(a: nat, b: nat)
    requires a < TWO32 && b < TWO32 && CompressedSize(a) < CompressedSize(b)
    ensures a < b && Compressed(a)[0] < Compressed(b)[0]
  {
    hide Compressed;
    FlagTellsSize(a);
    FlagTellsSize(b);
  }

  lemma MarkedFits(n: nat)
    requires n < TWO32
    ensures n + Mark(CompressedSize(n)) < Limit(CompressedSize(n))
  {
    Limits();
  }

  /** Byte by byte, compressed numbers are in the order of the numbers, and no one begins another. */
  lemma CompressedOrder(a: nat, b: nat, c: seq<Byte>, d: seq<Byte>)
    requires a < TWO32 && b < TWO32
    ensures BytesLt(Compressed(a) + c, Compressed(b) + d) <==> a < b || (a == b && BytesLt(c, d))
  {
    if CompressedSize(a) == CompressedSize(b) {
      var k := CompressedSize(a);
      MarkedFits(a);
      MarkedFits(b);
      BEOrder(a + Mark(k), b + Mark(k), k);
      BytesLtConcat(Compressed(a), Compressed(b), c, d);
    } else {
      hide Compressed;
      if CompressedSize(a) < CompressedSize(b) {
        SizeOrder(a, b);
      } else {
        SizeOrder(b, a);
      }
      assert (Compressed(a) + c)[0] == Compressed(a)[0] && (Compressed(b) + d)[0] == Compressed(b)[0];
    }
  }

  // ----- 64-bit numbers

  /** dulint: the high and the low half. */
  datatype Dulint = Dulint(high: nat, low: nat) {
    ghost predicate Valid() {
      high < TWO32 && low < TWO32
    }
  }

  predicate DulintLt(m: Dulint, n: Dulint) {
    m.high < n.high || (m.high == n.high && m.low < n.low)
  }

  /** mach_dulint_write_compressed. */
  function DulintCompressed(n: Dulint): (s: seq<Byte>)
    ensures |s| == 4 + CompressedSize(n.high)
  {
    Compressed(n.high) + BE(n.low, 4)
  }

  /** mach_dulint_parse_compressed: five bytes are demanded first, so the high half can be read. */
  function ParseDulint(b: seq<Byte>, ptr: nat): Option<(nat, Dulint)> {
    if |b| < ptr + 5 then None
    else
      var high := ReadCompressed(b, ptr);
      var p := ptr + CompressedSize(high);
      if |b| < p + 4 then None else Some((p + 4, Dulint(high, ReadFrom4(b, p))))
  }

  lemma DulintParses(n: Dulint, b: seq<Byte>, ptr: nat)
    requires n.Valid() && StandsAt(b, ptr, DulintCompressed(n))
    ensures ParseDulint(b, ptr) == Some((ptr + 4 + CompressedSize(n.high), n))
  {
    hide Compressed, BE, ReadCompressed, ReadFrom4, StandsAt;
    StandsLength(b, ptr, DulintCompressed(n));
    StandsConcat(b, ptr, Compressed(n.high), BE(n.low, 4));
    CompressedReads(n.high, b, ptr);
    ReadFour4(n.low, b, ptr + CompressedSize(n.high));
  }

  lemma DulintCut(n: Dulint, b: seq<Byte>, ptr: nat, k: nat)
    requires n.Valid() && k < |DulintCompressed(n)| && |b| == ptr + k && b[ptr..] == DulintCompressed(n)[..k]
    ensures ParseDulint(b, ptr) == None
  {
    hide Compressed, BE, ReadCompressed, ReadFrom4;
    if k >= 5 {
      var s := Compressed(n.high);
      assert b[ptr..ptr + |s|] == b[ptr..][..|s|] == DulintCompressed(n)[..k][..|s|] == s;
      CompressedReads(n.high, b, ptr);
    }
  }

  lemma DulintOrder(m: Dulint, n: Dulint, c: seq<Byte>, d: seq<Byte>)
    requires m.Valid() && n.Valid()
    ensures BytesLt(DulintCompressed(m) + c, DulintCompressed(n) + d) <==> DulintLt(m, n) || (m == n && BytesLt(c, d))
  {
    hide Compressed, BE, BytesLt;
    Limits();
    var x, y := BE(m.low, 4), BE(n.low, 4);
    assert DulintCompressed(m) + c == Compressed(m.high) + (x + c);
    assert DulintCompressed(n) + d == Compressed(n.high) + (y + d);
    CompressedOrder(m.high, n.high, x + c, y + d);
    BytesLtConcat(x, y, c, d);
    BEOrder(m.low, n.low, 4);
  }

  // ----- the much compressed form

  /** mach_dulint_write_much_compressed: small numbers are just the low half. */
  function MuchCompressed(n: Dulint): seq<Byte> {
    if n.high == 0 then Compressed(n.low) else [0xFF] + Compressed(n.high) + Compressed(n.low)
  }

  /** mach_dulint_get_much_compressed_size. */
  function MuchCompressedSize(n: Dulint): nat {
    if n.high == 0 then CompressedSize(n.low) else 1 + CompressedSize(n.high) + CompressedSize(n.low)
  }

  /** Is there enough at the position for mach_dulint_read_much_compressed? */
  predicate CanReadMuch(b: seq<Byte>, at: nat) {
    && at < |b|
    && if b[at] != 0xFF then at + SizeFromFlag(b[at]) <= |b|
       else
         && at + 1 < |b| && at + 1 + SizeFromFlag(b[at + 1]) <= |b|
         && var p := at + 1 + CompressedSize(ReadCompressed(b, at + 1));
            p < |b| && p + SizeFromFlag(b[p]) <= |b|
  }

  /** mach_dulint_read_much_compressed. */
  function ReadMuch(b: seq<Byte>, at: nat): Dulint
    requires CanReadMuch(b, at)
  {
    if b[at] != 0xFF then Dulint(0, ReadCompressed(b, at))
    else
      var high := ReadCompressed(b, at + 1);
      var size := 1 + CompressedSize(high);
      Dulint(high, ReadCompressed(b, at + size))
  }

  /** The much compressed form has the predicted size and is read back wherever it stands. */
  lemma MuchCompressedReads(n: Dulint, b: seq<Byte>, at: nat)
    requires n.Valid() && StandsAt(b, at, MuchCompressed(n))
    ensures |MuchCompressed(n)| == MuchCompressedSize(n)
    ensures CanReadMuch(b, at) && ReadMuch(b, at) == n
  {
    hide Compressed, ReadCompressed, StandsAt;
    if n.high == 0 {
      CompressedReads(n.low, b, at);
      StandsByte(b, at, Compressed(n.low), 0);
      FlagTellsSize(n.low);
    } else {
      StandsConcat(b, at, [0xFF] + Compressed(n.high), Compressed(n.low));
      StandsConcat(b, at, [0xFF], Compressed(n.high));
      StandsByte(b, at, [0xFF], 0);
      CompressedReads(n.high, b, at + 1);
      CompressedReads(n.low, b, at + 1 + CompressedSize(n.high));
    }
  }

  /** The much compressed form also keeps the order of the numbers. */
  lemma MuchCompressedOrder(m: Dulint, n: Dulint, c: seq<Byte>, d: seq<Byte>)
    requires m.Valid() && n.Valid()
    ensures BytesLt(MuchCompressed(m) + c, MuchCompressed(n) + d) <==> DulintLt(m, n) || (m == n && BytesLt(c, d))
  {
    hide Compressed;
    if m.high == 0 && n.high == 0 {
      CompressedOrder(m.low, n.low, c, d);
    } else if m.high != 0 && n.high != 0 {
      var x, y := Compressed(m.low) + c, Compressed(n.low) + d;
      assert MuchCompressed(m) + c == [0xFF] + (Compressed(m.high) + x);
      assert MuchCompressed(n) + d == [0xFF] + (Compressed(n.high) + y);
      BytesLtConcat([0xFF], [0xFF], Compressed(m.high) + x, Compressed(n.high) + y);
      CompressedOrder(m.high, n.high, x, y);
      CompressedOrder(m.low, n.low, c, d);
    } else {
      FlagTellsSize(m.low);
      FlagTellsSize(n.low);
      assert (Compressed(m.low) + c)[0] == Compressed(m.low)[0] && (Compressed(n.low) + d)[0] == Compressed(n.low)[0];
    }
  }

  // ----- streams

  function Stream(ns: seq<nat>): seq<Byte> {
    if ns == [] then [] else Compressed(ns[0]) + Stream(ns[1..])
  }

  /** Parses numbers until one is not there completely. */
  function ParseStream(b: seq<Byte>, ptr: nat): seq<nat>
    decreases |b| - ptr
  {
    match ParseCompressed(b, ptr)
    case None => []
    case Some((p, n)) => if p <= ptr || p > |b| then [] else [n] + ParseStream(b, p)
  }

  lemma NothingToParse(b: seq<Byte>, ptr: nat)
    requires ptr >= |b|
    ensures ParseCompressed(b, ptr) == None
  {
  }

  lemma StreamCons(ns: seq<nat>, k: nat)
    requires 0 < k <= |ns|
    ensures |Stream(ns[..k])| == CompressedSize(ns[0]) + |Stream(ns[1..][..k - 1])|
  {
    assert ns[..k][1..] == ns[1..][..k - 1];
  }

  /** However a stream is cut, parsing gives the numbers that are there completely, and all of them if it is not
      cut at all. */
  lemma {:induction false} StreamParses(ns: seq<nat>, b: seq<Byte>, ptr: nat) returns (k: nat)
    requires forall i :: 0 <= i < |ns| ==> ns[i] < TWO32
    requires ptr <= |b| && |b| - ptr <= |Stream(ns)| && b[ptr..] == Stream(ns)[..|b| - ptr]
    ensures k <= |ns| && ParseStream(b, ptr) == ns[..k]
    ensures |Stream(ns[..k])| <= |b| - ptr && (k < |ns| ==> |b| - ptr < |Stream(ns[..k])| + CompressedSize(ns[k]))
    decreases |ns|
  {
    hide Compressed, ParseCompressed;
    if ns == [] {
      assert b[ptr..] == [];
      NothingToParse(b, ptr);
      k := 0;
    } else {
      var s, rest := Compressed(ns[0]), Stream(ns[1..]);
      var n := |b| - ptr;
      if n < |s| {
        assert Stream(ns)[..n] == s[..n];
        CompressedCut(ns[0], b, ptr, n);
        k := 0;
      } else {
        var p := ptr + |s|;
        assert b[ptr..p] == b[ptr..][..|s|] == Stream(ns)[..n][..|s|] == s;
        assert b[p..] == b[ptr..][|s|..] == Stream(ns)[..n][|s|..] == rest[..|b| - p];
        CompressedReads(ns[0], b, ptr);
        var j := StreamParses(ns[1..], b, p);
        k := j + 1;
        assert ns[..k] == [ns[0]] + ns[1..][..j];
        StreamCons(ns, k);
      }
    }
  }

  function DulintStream(ns: seq<Dulint>): seq<Byte> {
    if ns == [] then [] else DulintCompressed(ns[0]) + DulintStream(ns[1..])
  }

  function ParseDulintStream(b: seq<Byte>, ptr: nat): seq<Dulint>
    decreases |b| - ptr
  {
    match ParseDulint(b, ptr)
    case None => []
    case Some((p, n)) => if p <= ptr || p > |b| then [] else [n] + ParseDulintStream(b, p)
  }

  lemma NoDulintToParse(b: seq<Byte>, ptr: nat)
    requires ptr >= |b|
    ensures ParseDulint(b, ptr) == None
  {
  }

  /** The same for 64-bit numbers. */
  lemma {:induction false} DulintStreamParses(ns: seq<Dulint>, b: seq<Byte>, ptr: nat) returns (k: nat)
    requires forall i :: 0 <= i < |ns| ==> ns[i].Valid()
    requires ptr <= |b| && |b| - ptr <= |DulintStream(ns)| && b[ptr..] == DulintStream(ns)[..|b| - ptr]
    ensures k <= |ns| && ParseDulintStream(b, ptr) == ns[..k]
    ensures |DulintStream(ns[..k])| <= |b| - ptr
    ensures k < |ns| ==> |b| - ptr < |DulintStream(ns[..k])| + |DulintCompressed(ns[k])|
    decreases |ns|
  {
    hide DulintCompressed, ParseDulint;
    if ns == [] {
      assert b[ptr..] == [];
      NoDulintToParse(b, ptr);
      k := 0;
    } else {
      var s, rest := DulintCompressed(ns[0]), DulintStream(ns[1..]);
      var n := |b| - ptr;
      if n < |s| {
        assert DulintStream(ns)[..n] == s[..n];
        DulintCut(ns[0], b, ptr, n);
        k := 0;
      } else {
        var p := ptr + |s|;
        assert b[ptr..p] == b[ptr..][..|s|] == DulintStream(ns)[..n][..|s|] == s;
        assert b[p..] == b[ptr..][|s|..] == DulintStream(ns)[..n][|s|..] == rest[..|b| - p];
        DulintParses(ns[0], b, ptr);
        var j := DulintStreamParses(ns[1..], b, p);
        k := j + 1;
        assert ns[..k] == [ns[0]] + ns[1..][..j];
        assert ns[..k][1..] == ns[1..][..j];
      }
    }
  }

  // ----- the writers

  method WriteTo1(b: array<Byte>, at: nat, n: nat)
    requires n <= 0xFF && at + 1 <= b.Length
    modifies b
    ensures b[..] == old(b[..at]) + BE(n, 1) + old(b[at + 1..])
  {
    BEOne(n);
    b[at] := n;
  }

  method WriteTo2(b: array<Byte>, at: nat, n: nat)
    requires n <= 0xFFFF && at + 2 <= b.Length
    modifies b
    ensures b[..] == old(b[..at]) + BE(n, 2) + old(b[at + 2..])
  {
    BETwo(n);
    b[at] := n / 0x100 % 0x100;
    b[at + 1] := n % 0x100;
  }

  method WriteTo3(b: array<Byte>, at: nat, n: nat)
    requires n <= 0xFF_FFFF && at + 3 <= b.Length
    modifies b
    ensures b[..] == old(b[..at]) + BE(n, 3) + old(b[at + 3..])
  {
    BEThree(n);
    b[at] := n / 0x1_0000 % 0x100;
    b[at + 1] := n / 0x100 % 0x100;
    b[at + 2] := n % 0x100;
  }

  method WriteTo4(b: array<Byte>, at: nat, n: nat)
    requires at + 4 <= b.Length
    modifies b
    ensures b[..] == old(b[..at]) + BE(n, 4) + old(b[at + 4..])
  {
    BEFour(n);
    b[at] := n / 0x100_0000 % 0x100;
    b[at + 1] := n / 0x1_0000 % 0x100;
    b[at + 2] := n / 0x100 % 0x100;
    b[at + 3] := n % 0x100;
  }

  lemma FlagByte()
    ensures BE(0xF0, 1) == [0xF0]
  {
    BEOne(0xF0);
  }

  lemma TwoWrites(o: seq<Byte>, m: seq<Byte>, f: seq<Byte>, at: nat, s: seq<Byte>, t: seq<Byte>)
    requires at + |s| + |t| <= |o| && m == o[..at] + s + o[at + |s|..]
    requires f == m[..at + |s|] + t + m[at + |s| + |t|..]
    ensures f == o[..at] + (s + t) + o[at + |s| + |t|..]
  {
    assert m[..at + |s|] == o[..at] + s && m[at + |s| + |t|..] == o[at + |s| + |t|..];
  }

  method WriteFive(b: array<Byte>, at: nat, n: nat)
    requires 0x1000_0000 <= n < TWO32 && at + 5 <= b.Length
    modifies b
    ensures b[..] == old(b[..at]) + Compressed(n) + old(b[at + 5..])
  {
    hide BE, Compressed;
    CompressedFive(n);
    FlagByte();
    ghost var before := b[..];
    WriteTo1(b, at, 0xF0);
    ghost var mid := b[..];
    WriteTo4(b, at + 1, n);
    TwoWrites(before, mid, b[..], at, [0xF0], BE(n, 4));
  }

  /** mach_write_compressed. The marks are bits that the number does not have, so adding them is or-ing them. */
  method WriteCompressed(b: array<Byte>, at: nat, n: nat) returns (size: nat)
    requires n < TWO32 && at + CompressedSize(n) <= b.Length
    modifies b
    ensures size == CompressedSize(n)
    ensures b[..] == old(b[..at]) + Compressed(n) + old(b[at + size..])
  {
    hide BE;
    if n < 0x80 {
      WriteTo1(b, at, n);
      return 1;
    } else if n < 0x4000 {
      WriteTo2(b, at, n + 0x8000);
      return 2;
    } else if n < 0x20_0000 {
      WriteTo3(b, at, n + 0xC0_0000);
      return 3;
    } else if n < 0x1000_0000 {
      WriteTo4(b, at, n + 0xE000_0000);
      return 4;
    } else {
      WriteFive(b, at, n);
      return 5;
    }
  }

  /** mach_dulint_write_compressed. */
  method DulintWriteCompressed(b: array<Byte>, at: nat, n: Dulint) returns (size: nat)
    requires n.Valid() && at + 4 + CompressedSize(n.high) <= b.Length
    modifies b
    ensures size == 4 + CompressedSize(n.high)
    ensures b[..] == old(b[..at]) + DulintCompressed(n) + old(b[at + size..])
  {
    hide BE, Compressed;
    ghost var before := b[..];
    size := WriteCompressed(b, at, n.high);
    ghost var mid := b[..];
    WriteTo4(b, at + size, n.low);
    TwoWrites(before, mid, b[..], at, Compressed(n.high), BE(n.low, 4));
    size := size + 4;
  }

  // ----- little-endian numbers of any width

  function LE(n: nat, k: nat): (s: seq<Byte>)
    ensures |s| == k
  {
    if k == 0 then [] else [n % 0x100] + LE(n / 0x100, k - 1)
  }

  function LEValue(s: seq<Byte>): nat {
    if s == [] then 0 else s[0] + 0x100 * LEValue(s[1..])
  }

  /** Writing and reading gives the number back iff it fits into the bytes. */
  lemma {:induction false} LERoundIff(n: nat, k: nat)
    ensures LEValue(LE(n, k)) == n <==> n < Limit(k)
    ensures LEValue(LE(n, k)) < Limit(k)
    decreases k
  {
    if k > 0 {
      LERoundIff(n / 0x100, k - 1);
      assert LE(n, k)[1..] == LE(n / 0x100, k - 1);
      var v := LEValue(LE(n / 0x100, k - 1));
      assert LEValue(LE(n, k)) == n % 0x100 + 0x100 * v;
      assert n == n % 0x100 + 0x100 * (n / 0x100);
    }
  }

  lemma LEStep(n: nat, k: nat)
    requires k > 0
    ensures LE(n, k) == [n % 0x100] + LE(n / 0x100, k - 1)
  {
  }

  /** mach_write_to_n_little_endian. */
  method WriteToNLittleEndian(dest: array<Byte>, at: nat, destSize: nat, n0: nat)
    requires destSize > 0 && at + destSize <= dest.Length
    modifies dest
    ensures dest[at..at + destSize] == LE(n0, destSize)
    ensures dest[..at] == old(dest[..at]) && dest[at + destSize..] == old(dest[at + destSize..])
  {
    var n, p := n0, at;
    while true
      invariant at <= p < at + destSize
      invariant LE(n0, destSize) == dest[at..p] + LE(n, at + destSize - p)
      invariant dest[..at] == old(dest[..at]) && dest[at + destSize..] == old(dest[at + destSize..])
      decreases at + destSize - p
    {
      LEStep(n, at + destSize - p);
      dest[p] := n % 0x100;
      n := n / 0x100;
      p := p + 1;
      assert dest[at..p] == dest[at..p - 1] + [dest[p - 1]];
      if p == at + destSize {
        assert LE(n, 0) == [];
        return;
      }
    }
  }

  /** mach_read_from_n_little_endian. */
  method ReadFromNLittleEndian(buf: array<Byte>, at: nat, bufSize: nat) returns (n: nat)
    requires bufSize > 0 && at + bufSize <= buf.Length
    ensures n == LEValue(buf[at..at + bufSize])
  {
    n := 0;
    var p := at + bufSize;
    while true
      invariant at < p <= at + bufSize && n == LEValue(buf[p..at + bufSize])
      decreases p
    {
      p := p - 1;
      assert buf[p..at + bufSize][1..] == buf[p + 1..at + bufSize];
      n := n * 0x100 + buf[p];
      if p == at {
        return;
      }
    }
  }

  /** The least significant byte comes first. */
  lemma LittleEndianBytes()
    ensures LE(0x01020304, 4) == [4, 3, 2, 1]
  {
    LEStep(0x01020304, 4);
    LEStep(0x010203, 3);
    LEStep(0x0102, 2);
    LEStep(0x01, 1);
  }

  /** A number that does not fit into 32 bits starts with the byte 0xFF. */
  lemma MuchCompressedBytes()
    ensures MuchCompressed(Dulint(1, 0x80)) == [0xFF, 0x01, 0x80, 0x80]
    ensures MuchCompressed(Dulint(0, 0x80)) == [0x80, 0x80]
  {
    hide Compressed;
    CompressedOne(1);
    CompressedTwo(0x80);
  }
}
