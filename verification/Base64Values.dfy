/** The alphabet of section 4 of RFC 4648, and an example of its section 10. */
module Base64Values {
  import opened Words
  import opened Base64

  const UPPER := "ABCDEFGHIJKLMNOPQRSTUVWXYZ"
  const LOWER := "abcdefghijklmnopqrstuvwxyz"
  const NUMERALS := "0123456789"
  const ALPHABET := UPPER + LOWER + NUMERALS + "+/"

  lemma UpperIs(c: nat)
    requires c < 26
    ensures UPPER[c] as int == 65 + c
  {
  }

  lemma LowerIs(c: nat)
    requires c < 26
    ensures LOWER[c] as int == 97 + c
  {
  }

  lemma NumeralIs(c: nat)
    requires c < 10
    ensures NUMERALS[c] as int == 48 + c
  {
  }

  /** The digits are the characters of the alphabet, in order. */
  lemma DigitIsInAlphabet(c: nat)
    requires c < 64
    ensures |ALPHABET| == 64 && Digit(c) == ALPHABET[c] as int
  {
    if c < 26 {
      UpperIs(c);
    } else if c < 52 {
      LowerIs(c - 26);
    } else if c < 62 {
      NumeralIs(c - 52);
    }
  }

  function Bytes(s: string): (b: seq<Byte>)
    requires forall i :: 0 <= i < |s| ==> s[i] as int < 0x100
    ensures |b| == |s| && forall i :: 0 <= i < |s| ==> b[i] == s[i] as int
  {
    seq(|s|, i requires 0 <= i < |s| => s[i] as int)
  }

  lemma GroupFoo(s: seq<Byte>)
    requires |s| >= 3 && s[0] == 102 && s[1] == 111 && s[2] == 111
    ensures FourDigits(s) == [90, 109, 57, 118]
  {
  }

  lemma GroupBa(s: seq<Byte>)
    requires |s| == 2 && s[0] == 98 && s[1] == 97
    ensures FourDigits(s) == [89, 109, 69, 61] && Rest(s) == []
  {
  }

  /** BASE64("fooba") = "Zm9vYmE=". */
  lemma FoobaEncoded()
    ensures Encoded(Bytes("fooba")) == Bytes("Zm9vYmE=")
  {
    hide FourDigits;
    var s := Bytes("fooba");
    GroupFoo(s);
    GroupBa(Rest(s));
    assert Encoded([]) == [];
    assert Encoded(Rest(s)) == [89, 109, 69, 61];
  }
}
