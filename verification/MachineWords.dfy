/** Bytes as array indices, and the exclusive or of 32-bit words under a name of its own. */
module MachineWords {
  function Index(b: bv8): (i: nat)
    ensures i < 256
  {
    b as int
  }

  lemma NextIndex(b: bv8)
    ensures Index(b) < 255 ==> Index(b + 1) == Index(b) + 1
  {
    assert b < 255 ==> (b + 1) as int == b as int + 1;
  }

  lemma IndexInjective(a: bv8, b: bv8)
    requires Index(a) == Index(b)
    ensures a == b
  {
  }

  function Xor(v: bv32, w: bv32): bv32 {
    v ^ w
  }

  lemma XorIs(v: bv32, w: bv32)
    ensures Xor(v, w) == v ^ w
  {
  }

  lemma XorAssociates(a: bv32, b: bv32, c: bv32)
    ensures Xor(Xor(a, b), c) == Xor(a, Xor(b, c))
  {
    assert (a ^ b) ^ c == a ^ (b ^ c);
  }

  lemma XorCommutes(a: bv32, b: bv32)
    ensures Xor(a, b) == Xor(b, a)
  {
  }

  lemma XorSelf(a: bv32)
    ensures Xor(a, a) == 0
  {
  }

  lemma XorZero(a: bv32)
    ensures Xor(a, 0) == a && Xor(0, a) == a
  {
  }
}
