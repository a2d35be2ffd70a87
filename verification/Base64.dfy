/** Base64, section 4 of RFC 4648, as base64.cpp writes and reads it. Characters are byte values. */
module Base64 {
  import opened Words
  import opened Wrappers

  const FILL: Byte := 61  // '='
  const NP := -1          // a table entry without value, as a signed character

  // ----- the standard: 24 bits make four groups of six

  /** Base64Table. */
  function Digit(c: nat): Byte
    requires c < 64
  {
    if c < 26 then 65 + c else if c < 52 then 97 + (c - 26) else if c < 62 then 48 + (c - 52) else if c == 62 then 43 else 47
  }

  /** The k-th six bits of 24. */
  function Sextet(v: nat, k: nat): (c: nat)
    requires k < 4
    ensures c < 64
  {
    (if k == 0 then v / 0x4_0000 else if k == 1 then v / 0x1000 else if k == 2 then v / 0x40 else v) % 64
  }

  function Group(a: Byte, b: Byte, c: Byte): nat {
    (a as nat) * 0x1_0000 + (b as nat) * 0x100 + (c as nat)
  }

  /** Four digits for the first three bytes; missing bytes count as zero and give fill characters. */
  function FourDigits(s: seq<Byte>): (d: seq<Byte>)
    requires s != []
    ensures |d| == 4
  {
    var v := Group(s[0], if |s| > 1 then s[1] else 0, if |s| > 2 then s[2] else 0);
    [Digit(Sextet(v, 0)), Digit(Sextet(v, 1)), if |s| > 1 then Digit(Sextet(v, 2)) else FILL,
     if |s| > 2 then Digit(Sextet(v, 3)) else FILL]
  }

  function Rest(s: seq<Byte>): seq<Byte> {
    if |s| <= 3 then [] else s[3..]
  }

  function Encoded(s: seq<Byte>): seq<Byte>
    decreases |s|
  {
    if s == [] then [] else FourDigits(s) + Encoded(Rest(s))
  }

  /** Four characters for every three bytes, rounded up. */
  lemma {:induction false} EncodedLength(s: seq<Byte>)
    ensures |Encoded(s)| == 4 * ((|s| + 2) / 3)
    decreases |s|
  {
    hide FourDigits;
    if s != [] {
      EncodedLength(Rest(s));
    }
  }

  // ----- encode and encodeFromArray

  /** The six bits, from the pieces of the bytes. */
  lemma SextetParts(a: Byte, b: Byte, c: Byte)
    ensures var v := Group(a, b, c);
      && Sextet(v, 0) == a / 4 && Sextet(v, 1) == 16 * (a % 4) + b / 16
      && Sextet(v, 2) == 4 * (b % 16) + c / 64 && Sextet(v, 3) == c % 64
  {
    var v := Group(a, b, c);
    var p, r, q, s, x, y := a / 4, a % 4, b / 16, b % 16, c / 64, c % 64;
    assert a == 4 * p + r && b == 16 * q + s && c == 64 * x + y;
    ModUnique(0x4_0000, v, p, 0x1_0000 * r + 0x1000 * q + 0x100 * s + c);
    ModUnique(0x1000, v, 64 * p + (16 * r + q), 0x100 * s + c);
    ModUnique(0x40, v, 0x1000 * p + 64 * (16 * r + q) + (4 * s + x), y);
    ModUnique(64, p, 0, p);
    ModUnique(64, 64 * p + (16 * r + q), p, 16 * r + q);
    ModUnique(64, 0x1000 * p + 64 * (16 * r + q) + (4 * s + x), 64 * p + (16 * r + q), 4 * s + x);
  }

  lemma Masks(a: Byte, b: Byte, c: Byte)
    ensures a / 4 % 64 == a / 4 && a * 16 % 64 == 16 * (a % 4) && b / 16 % 16 == b / 16
    ensures b * 4 % 64 == 4 * (b % 16) && c / 64 % 4 == c / 64
  {
    ModUnique(64, a * 16, a / 4, 16 * (a % 4));
    ModUnique(64, b * 4, b / 16, 4 * (b % 16));
  }

  /** The shifts and masks of the loop body take the same six bits. */
  lemma SextetsByShifts(a: Byte, b: Byte, c: Byte)
    ensures Sextet(Group(a, b, c), 0) == a / 4 % 64
    ensures Sextet(Group(a, b, c), 1) == a * 16 % 64 + b / 16 % 16
    ensures Sextet(Group(a, b, c), 2) == b * 4 % 64 + c / 64 % 4
    ensures Sextet(Group(a, b, c), 3) == c % 64
  {
    hide Sextet, Group;
    SextetParts(a, b, c);
    Masks(a, b, c);
  }

  /** The body of the encoding loops, with its increments of i. */
  method EncodeGroup(data: seq<Byte>, i0: nat, ret0: seq<Byte>) returns (i: nat, ret: seq<Byte>)
    requires i0 < |data|
    ensures ret == ret0 + FourDigits(data[i0..])
    ensures if |data| - i0 >= 3 then i == i0 + 3 else i > |data|
  {
    hide Digit, Sextet, Group;
    i := i0;
    ghost var s := data[i..];
    assert s[0] == data[i] && (|s| > 1 ==> s[1] == data[i + 1]) && (|s| > 2 ==> s[2] == data[i + 2]);
    SextetsByShifts(s[0], if |s| > 1 then s[1] else 0, if |s| > 2 then s[2] else 0);
    var c: nat := data[i] / 4 % 64;
    ret := ret0 + [Digit(c)];
    c := data[i] as nat * 16 % 64;
    i := i + 1;
    if i < |data| {
      c := c + data[i] / 16 % 16;
    }
    ret := ret + [Digit(c)];
    if i < |data| {
      c := data[i] as nat * 4 % 64;
      i := i + 1;
      if i < |data| {
        c := c + data[i] / 64 % 4;
      }
      ret := ret + [Digit(c)];
    } else {
      i := i + 1;
      ret := ret + [FILL];
    }
    if i < |data| {
      c := data[i] % 64;
      ret := ret + [Digit(c)];
    } else {
      ret := ret + [FILL];
    }
    i := i + 1;  // the increment of the loop
  }

  /** What is left to encode from position i, which may have stepped past the end. */
  function Left(data: seq<Byte>, i: nat): seq<Byte> {
    if i <= |data| then data[i..] else []
  }

  lemma EncodedStep(data: seq<Byte>, i: nat, next: nat)
    requires i < |data| && if |data| - i >= 3 then next == i + 3 else next > |data|
    ensures Encoded(Left(data, i)) == FourDigits(data[i..]) + Encoded(Left(data, next))
  {
    hide FourDigits;
    assert Rest(data[i..]) == Left(data, next);
  }

  lemma NothingLeft(data: seq<Byte>, i: nat)
    requires i >= |data|
    ensures Encoded(Left(data, i)) == []
  {
  }

  /** Base64::encode. */
  method Encode(data: seq<Byte>) returns (ret: seq<Byte>)
    ensures ret == Encoded(data)
  {
    hide Encoded, FourDigits;
    ret := [];
    var i := 0;
    assert Left(data, 0) == data;
    while i < |data|
      invariant ret + Encoded(Left(data, i)) == Encoded(data)
      decreases |data| - i
    {
      ghost var before := i;
      i, ret := EncodeGroup(data, i, ret);
      EncodedStep(data, before, i);
    }
    NothingLeft(data, i);
  }

  /** Base64::encodeFromArray. */
  method EncodeFromArray(data: array<Byte>, len: nat) returns (ret: seq<Byte>)
    requires len <= data.Length
    ensures ret == Encoded(data[..len])
  {
    hide Encoded, FourDigits;
    ret := [];
    var i := 0;
    ghost var all := data[..len];
    assert Left(all, 0) == all;
    while i < len
      invariant data[..len] == all && ret + Encoded(Left(all, i)) == Encoded(all)
      decreases len - i
    {
      ghost var before := i;
      i, ret := EncodeGroup(data[..len], i, ret);
      EncodedStep(all, before, i);
    }
    NothingLeft(all, i);
  }

  // ----- decode

  /** DecodeTable, as a signed character. */
  function Value(ch: Byte): int {
    if 65 <= ch <= 90 then ch - 65
    else if 97 <= ch <= 122 then ch - 71
    else if 48 <= ch <= 57 then ch + 4
    else if ch == 43 then 62
    else if ch == 47 then 63
    else NP
  }

  lemma ValueOfDigit(c: nat)
    requires c < 64
    ensures Value(Digit(c)) == c && Digit(c) != FILL
  {
  }

  /** A character of a string; the one behind the last is the terminating NUL. */
  function At(data: seq<Byte>, i: nat): Byte
    requires i <= |data|
  {
    if i < |data| then data[i] else 0
  }

  /** Bits of a signed character: the shifts of decode keep eight bits. */
  function Bits(c: int): (b: Byte) {
    c % 0x100
  }

  /**
    * The loop that skips characters without value: the value it ends with and where it stops. It goes on while the
    * tested variable has no value; `other` is that variable when it is not the one the loop assigns. `ok` is false
    * when the loop would read behind the terminating NUL.
    */
  method NextValue(data: seq<Byte>, i0: nat, other: Option<int>) returns (c: int, i: nat, ok: bool)
    ensures i >= i0
    ensures i0 < |data| && (if other.Some? then other.value else Value(data[i0])) != NP ==>
              ok && c == Value(data[i0]) && i == i0
  {
    i, c, ok := i0, 0, i0 <= |data|;
    while ok
      invariant i0 <= i && (i0 <= |data| ==> ok && (i == i0 || i < |data|))
      invariant i > i0 && i0 < |data| ==> (if other.Some? then other.value else Value(data[i0])) == NP
      decreases |data| + 1 - i
    {
      c := Value(At(data, i));
      if (if other.Some? then other.value else c) != NP {
        return;
      }
      i := i + 1;
      if i >= |data| {
        return;
      }
    }
  }

  /** The digits of a byte string, four at a time: what decode relies on. */
  lemma FirstDigits(s: seq<Byte>)
    requires s != []
    ensures var e, v := Encoded(s), Group(s[0], if |s| > 1 then s[1] else 0, if |s| > 2 then s[2] else 0);
      && |e| >= 4 && Value(e[0]) == Sextet(v, 0) && Value(e[1]) == Sextet(v, 1)
      && (if |s| > 1 then e[2] != FILL && Value(e[2]) == Sextet(v, 2) else e[2] == FILL)
      && (if |s| > 2 then e[3] != FILL && Value(e[3]) == Sextet(v, 3) else e[3] == FILL)
      && e[4..] == Encoded(Rest(s))
  {
    hide Digit, Sextet, Group, Value;
    var v := Group(s[0], if |s| > 1 then s[1] else 0, if |s| > 2 then s[2] else 0);
    ValueOfDigit(Sextet(v, 0));
    ValueOfDigit(Sextet(v, 1));
    ValueOfDigit(Sextet(v, 2));
    ValueOfDigit(Sextet(v, 3));
    assert Encoded(s)[..4] == FourDigits(s);
  }

  /** The bytes decode puts together, from values that may be missing. */
  function FirstByte(c: int, c1: int): Byte {
    Bits(c * 4) / 4 * 4 + c1 / 16 % 4
  }

  lemma PiecesOfA(p: nat, r: nat, q: nat)
    requires p < 64 && r < 4 && q < 16
    ensures FirstByte(p, 16 * r + q) == 4 * p + r
  {
  }

  function SecondByte(c1: int, c: int): Byte {
    Bits(c1 * 16) / 16 * 16 + c / 4 % 16
  }

  lemma PiecesOfB(r: nat, q: nat, s: nat, x: nat)
    requires r < 4 && q < 16 && s < 16 && x < 4
    ensures SecondByte(16 * r + q, 4 * s + x) == 16 * q + s
  {
    ModUnique(0x100, 16 * (16 * r + q), r, 16 * q);
  }

  function ThirdByte(c: int, c1: int): Byte {
    if 0 <= c1 < 64 then Bits(c * 64) / 64 * 64 + c1 else 0xFF
  }

  lemma PiecesOfC(s: nat, x: nat, y: nat)
    requires s < 16 && x < 4 && y < 64
    ensures ThirdByte(4 * s + x, y) == 64 * x + y
  {
    ModUnique(0x100, 64 * (4 * s + x), s, 64 * x);
  }

  /** Putting the six bits together again gives the bytes. */
  lemma BytesFromSextets(a: Byte, b: Byte, c: Byte)
    ensures var v := Group(a, b, c);
      && FirstByte(Sextet(v, 0), Sextet(v, 1)) == a
      && SecondByte(Sextet(v, 1), Sextet(v, 2)) == b
      && ThirdByte(Sextet(v, 2), Sextet(v, 3)) == c
  {
    hide Sextet, Group, FirstByte, SecondByte, ThirdByte;
    SextetParts(a, b, c);
    PiecesOfA(a / 4, a % 4, b / 16);
    PiecesOfB(a % 4, b / 16, b % 16, c / 64);
    PiecesOfC(b % 16, c / 64, c % 64);
  }

  lemma FourAhead(data: seq<Byte>, i: nat, e: seq<Byte>)
    requires i < |data| && data[i..] == e && |e| >= 4
    ensures i + 4 <= |data| && data[i] == e[0] && data[i + 1] == e[1] && data[i + 2] == e[2] && data[i + 3] == e[3]
  {
    assert data[i..][0] == e[0] && data[i..][1] == e[1] && data[i..][2] == e[2] && data[i..][3] == e[3];
  }

  /** One pass of the loop in decode. `stop` is its break. */
  method DecodeGroup(data: seq<Byte>, i0: nat, ret0: seq<Byte>, ghost s: seq<Byte>)
    returns (i: nat, ret: seq<Byte>, stop: bool, ok: bool)
    requires i0 < |data|
    ensures i >= i0 && (ok && !stop ==> i > i0)
    ensures s != [] && data[i0..] == Encoded(s) ==>
              ok && ret == ret0 + s[..if |s| < 3 then |s| else 3] && (stop <==> |s| < 3) && (!stop ==> i == i0 + 4)
  {
    hide Value, Encoded, FirstByte, SecondByte, ThirdByte, Group, Sextet;
    if s != [] && data[i0..] == Encoded(s) {
      FirstDigits(s);
      BytesFromSextets(s[0], if |s| > 1 then s[1] else 0, if |s| > 2 then s[2] else 0);
      FourAhead(data, i0, Encoded(s));
    }
    i, ret, stop, ok := i0, ret0, false, true;
    var c, c1: int;
    c, i, ok := NextValue(data, i, None);
    if !ok { return; }
    i := i + 1;
    c1, i, ok := NextValue(data, i, Some(c));
    if !ok { return; }
    ret := ret + [FirstByte(c, c1)];
    i := i + 1;
    if i < |data| {
      if data[i] == FILL {
        stop := true;
        return;
      }
      c, i, ok := NextValue(data, i, None);
      if !ok { return; }
      ret := ret + [SecondByte(c1, c)];
    }
    i := i + 1;
    if i < |data| {
      if data[i] == FILL {
        stop := true;
        return;
      }
      c1, i, ok := NextValue(data, i, Some(c));
      if !ok { return; }
      ret := ret + [ThirdByte(c, c1)];
    }
    i := i + 1;  // the increment of the loop
  }

  lemma RestEncoded(data: seq<Byte>, i: nat, s: seq<Byte>)
    requires i < |data| && data[i..] == Encoded(s)
    ensures s != [] && i + 4 <= |data| && data[i + 4..] == Encoded(Rest(s))
  {
    if s != [] {
      FirstDigits(s);
      assert data[i + 4..] == data[i..][4..];
    }
  }

  lemma LastGroup(s: seq<Byte>)
    ensures |s| == 3 ==> Rest(s) == s[3..]
  {
  }

  lemma NothingEncoded(s: seq<Byte>, e: seq<Byte>)
    requires e == Encoded(s) && e == []
    ensures s == []
  {
  }

  /** Base64::decode. None stands for a read behind the terminating NUL, which malformed text can cause. For every
      byte string, decoding its encoding gives it back. */
  method Decode(data: seq<Byte>, ghost s: seq<Byte>) returns (ret: Option<seq<Byte>>)
    ensures data == Encoded(s) ==> ret == Some(s)
  {
    hide Encoded;
    var text: seq<Byte> := [];
    var i := 0;
    ghost var left := s;
    assert data[0..] == data;
    while i < |data|
      invariant data == Encoded(s) ==> i <= |data| && s == text + left && data[i..] == Encoded(left)
      decreases |data| - i
    {
      ghost var i0 := i;
      if data == Encoded(s) {
        RestEncoded(data, i, left);
        assert |left| < 3 ==> left[..|left|] == left;
        assert |left| >= 3 ==> left == left[..3] + left[3..];
        LastGroup(left);
      }
      var stop, ok;
      i, text, stop, ok := DecodeGroup(data, i, text, left);
      if !ok {
        return None;
      }
      if stop {
        assert data == Encoded(s) ==> text == s;
        return Some(text);
      }
      left := Rest(left);
    }
    if data == Encoded(s) {
      NothingEncoded(left, data[i..]);
    }
    assert text + [] == text;
    ret := Some(text);
  }

  /** What encode writes, decode reads back. */
  method RoundTrip(s: seq<Byte>) returns (t: Option<seq<Byte>>)
    ensures t == Some(s)
  {
    var e := Encode(s);
    t := Decode(e, s);
  }
}
