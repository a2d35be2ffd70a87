/** The polynomial and the check value of CRC-32C. */
module CrcVectors {
  import opened MachineWords
  import opened Crc32c

  /** 0x1EDC6F41, the polynomial of section 12.1 of RFC 3720, as it is written down. */
  const STANDARD_POLY: bv32 := 0x1EDC6F41

  /** Bit i of the polynomial used is bit 31 - i of the standard's. */
  lemma PolyIsReversed(i: bv32)
    requires i < 32
    ensures (POLY >> i) & 1 == (STANDARD_POLY >> (31 - i)) & 1
  {
  }

  lemma OneByte(s: seq<bv8>, n: nat)
    requires n < |s|
    ensures Register(0xFFFFFFFF, s[..n + 1]) == ByteBits(Register(0xFFFFFFFF, s[..n]), s[n])
  {
    assert s[..n + 1][..n] == s[..n];
  }

  lemma NoBytes()
    ensures Register(0xFFFFFFFF, []) == 0xFFFFFFFF
  {
  }

  lemma Steps()
    ensures ByteBits(0xffffffff, 0x31) == 0x6f0a661c && ByteBits(0x6f0a661c, 0x32) == 0x8caa3b9f
    ensures ByteBits(0x8caa3b9f, 0x33) == 0xef84d04d && ByteBits(0xef84d04d, 0x34) == 0x09c50b11
    ensures ByteBits(0x09c50b11, 0x35) == 0xe72edcca && ByteBits(0xe72edcca, 0x36) == 0xbeca8e79
    ensures ByteBits(0xbeca8e79, 0x37) == 0xedbd6815 && ByteBits(0xedbd6815, 0x38) == 0x9f787f65
    ensures ByteBits(0x9f787f65, 0x39) == 0x1cf96d7c
  {
  }

  /** The check value: the bytes of "123456789" give 0xE3069283. */
  lemma CheckValue()
    ensures Crc([0x31, 0x32, 0x33, 0x34, 0x35, 0x36, 0x37, 0x38, 0x39]) == 0xE3069283
  {
    hide ByteBits, Register;
    Steps();
    var s: seq<bv8> := [0x31, 0x32, 0x33, 0x34, 0x35, 0x36, 0x37, 0x38, 0x39];
    NoBytes();
    OneByte(s, 0);
    OneByte(s, 1);
    OneByte(s, 2);
    OneByte(s, 3);
    OneByte(s, 4);
    OneByte(s, 5);
    OneByte(s, 6);
    OneByte(s, 7);
    OneByte(s, 8);
    assert s[..0] == [] && s[..9] == s;
  }
}
