/** aes_set_key: key tables, encryption schedule and decryption schedule. */
module AesKeySchedule {
  import opened GaloisField
  import opened Columns4
  import opened Fips197
  import opened MachineWords
  import opened AesWords
  import opened AesTables
  import opened AesCipher

  // ----- the key tables KT0 to KT3

  /** The byte a forward S-box entry holds, used as an index. */
  lemma SBoxIndex(g: AesGlobals, c: bv8)
    requires g.Allocated() && g.Generated(256)
    ensures (g.fsb[Index(c)] & 0xff) as bv8 == SBox(c)
  {
    hide g.Allocated, SBox, Index;
    TableEntry(g.fsb[..], FSb, c);
    ByteBack(SBox(c));
  }

  lemma KeyTableEntry(k: nat, c: bv8)
    ensures Entry(RT(k), SBox(c)) == Entry(KT(k), c)
  {
    hide SBox, Word;
  }

  /** One pass of the loop that fills the key tables. */
  method StoreKeyTables(g: AesGlobals, c: bv8)
    requires g.Allocated() && g.Generated(256) && g.KeyTablesOf(Index(c))
    modifies g.kt0, g.kt1, g.kt2, g.kt3
    ensures g.KeyTablesOf(Index(c) + 1)
  {
    hide Index, SBox, Entry, TableOf;
    SBoxIndex(g, c);
    var i, x := Index(c), (g.fsb[Index(c)] & 0xff) as bv8;
    TableEntry(g.rt0[..], RT(0), x); TableEntry(g.rt1[..], RT(1), x);
    TableEntry(g.rt2[..], RT(2), x); TableEntry(g.rt3[..], RT(3), x);
    KeyTableEntry(0, c); KeyTableEntry(1, c); KeyTableEntry(2, c); KeyTableEntry(3, c);
    TableStep(g.kt0[..], KT(0), c); TableStep(g.kt1[..], KT(1), c);
    TableStep(g.kt2[..], KT(2), c); TableStep(g.kt3[..], KT(3), c);
    g.kt0[i] := g.rt0[Index(x)];
    g.kt1[i] := g.rt1[Index(x)];
    g.kt2[i] := g.rt2[Index(x)];
    g.kt3[i] := g.rt3[Index(x)];
  }

  lemma NoKeyTables(g: AesGlobals)
    requires g.Allocated()
    ensures g.KeyTablesOf(0)
  {
    hide Entry, Index;
  }

  /** The loop under KT_init. */
  method GenKeyTables(g: AesGlobals)
    requires g.Allocated() && g.Generated(256)
    modifies g.kt0, g.kt1, g.kt2, g.kt3
    ensures g.KeyTablesOf(256)
  {
    hide Index, TableOf, g.KeyTablesOf;
    var c: bv8 := 0;  // the counter as an unsigned char
    IndexValues();
    NoKeyTables(g);
    for i := 0 to 256
      invariant i < 256 ==> Index(c) == i
      invariant g.KeyTablesOf(i)
    {
      StoreKeyTables(g, c);
      NextIndex(c);
      c := c + 1;
    }
  }

  // ----- the encryption schedule

  /** The key of nk words in a byte string. */
  function KeyOf(bytes: seq<bv8>, nk: nat): (key: seq<Col>)
    requires 4 * nk <= |bytes|
    ensures |key| == nk && forall i :: 0 <= i < nk ==>
      key[i] == Col(bytes[4 * i], bytes[4 * i + 1], bytes[4 * i + 2], bytes[4 * i + 3])
  {
    seq(nk, i requires 0 <= i < nk => Col(bytes[4 * i], bytes[4 * i + 1], bytes[4 * i + 2], bytes[4 * i + 3]))
  }

  /** The first n schedule words are in place. */
  ghost predicate Expanded(rk: seq<bv32>, key: seq<Col>, n: nat) {
    ValidKey(key) && |rk| == 64 && n <= 64 && forall j :: 0 <= j < n ==> rk[j] == Word(KeyWord(key, j))
  }

  lemma ExpandedStep(rk: seq<bv32>, key: seq<Col>, n: nat, w: bv32)
    requires Expanded(rk, key, n) && n < 64 && w == Word(KeyWord(key, n))
    ensures Expanded(rk[n := w], key, n + 1)
  {
    hide KeyWord, Word;
  }

  lemma ExpandedAt(rk: seq<bv32>, key: seq<Col>, n: nat, j: nat)
    requires Expanded(rk, key, n) && j < n
    ensures |rk| == 64 && rk[j] == Word(KeyWord(key, j))
  {
    hide KeyWord, Word;
  }

  /** Word nk * (i + 1) + t of the schedule, from the word before it and the word nk before it. */
  lemma NextKeyWord(key: seq<Col>, i: nat, t: nat)
    requires ValidKey(key) && t < |key|
    ensures var j := |key| * (i + 1) + t;
      var prev := KeyWord(key, j - 1);
      KeyWord(key, j) == AddCol(KeyWord(key, j - |key|),
        if t == 0 then AddCol(SubCol(RotWord(prev)), Col(RconByte(i), 0, 0, 0))
        else if |key| > 6 && t == 4 then SubCol(prev) else prev)
  {
    hide AddCol, SubCol, RotWord;
    var j := |key| * (i + 1) + t;
    assert j % |key| == t && j / |key| == i + 1 by {
      if |key| == 4 {
      } else if |key| == 6 {
      } else {
        assert |key| == 8;
      }
    }
  }

  lemma AddColAssociates(a: Col, b: Col, c: Col)
    ensures AddCol(AddCol(a, b), c) == AddCol(a, AddCol(c, b))
  {
    hide Add;
    AddAssociates(a.b0, b.b0, c.b0); AddAssociates(a.b1, b.b1, c.b1);
    AddAssociates(a.b2, b.b2, c.b2); AddAssociates(a.b3, b.b3, c.b3);
    AddCommutes(b.b0, c.b0); AddCommutes(b.b1, c.b1); AddCommutes(b.b2, c.b2); AddCommutes(b.b3, c.b3);
  }

  /** The S-box look-ups on the rotated (or not rotated) last word. */
  method SubWordLine(g: AesGlobals, k: bv32, w: bv32, rotate: bool, ghost kc: Col, ghost prev: Col) returns (x: bv32)
    requires g.Allocated() && g.Generated(256) && k == Word(kc) && w == Word(prev)
    ensures x == Word(AddCol(kc, SubCol(if rotate then RotWord(prev) else prev)))
  {
    hide Word, Bytes, Xor, Entry, TableOf, AddCol, SBox;
    BytesWord(prev);
    var b := Bytes(w);
    ghost var c := if rotate then RotWord(prev) else prev;
    ghost var d := SubCol(c);
    SubEntries(true, c);
    if rotate {
      x := SBoxLine(g.fsb, FSb, k, b.b1, b.b2, b.b3, b.b0, d.b0, d.b1, d.b2, d.b3);
    } else {
      x := SBoxLine(g.fsb, FSb, k, b.b0, b.b1, b.b2, b.b3, d.b0, d.b1, d.b2, d.b3);
    }
    WordXor(kc, d);
  }

  lemma GroupStart(nk: nat, i: nat)
    ensures nk * (i + 1) == nk * i + nk
  {
  }

  lemma KeyLengths(rk: seq<bv32>, key: seq<Col>, n: nat)
    requires Expanded(rk, key, n)
    ensures ValidKey(key) && |rk| == 64
  {
  }

  /** The line with a round constant: the first word of a group. */
  method RconLine(g: AesGlobals, rk: array<bv32>, p: nat, i: nat, ghost key: seq<Col>, nk: nat)
    requires g.Allocated() && g.Generated(256) && g.RconReady() && rk !in g.Arrays()
    requires nk == |key| && p == nk * i && i < 10 && p + nk < 64 && Expanded(rk[..], key, p + nk)
    modifies rk
    ensures Expanded(rk[..], key, p + nk + 1)
  {
    hide Word, Xor, TableOf, AddCol, SubCol, RotWord, KeyWord, Expanded;
    KeyLengths(rk[..], key, p + nk);
    ghost var rcon, prev := Col(RconByte(i), 0, 0, 0), KeyWord(key, p + nk - 1);
    ExpandedAt(rk[..], key, p + nk, p);
    ExpandedAt(rk[..], key, p + nk, p + nk - 1);
    WordXor(KeyWord(key, p), rcon);
    var x := SubWordLine(g, Xor(rk[p], g.rcon[i]), rk[p + nk - 1], true, AddCol(KeyWord(key, p), rcon), prev);
    AddColAssociates(KeyWord(key, p), rcon, SubCol(RotWord(prev)));
    NextKeyWord(key, i, 0);
    GroupStart(nk, i);
    ExpandedStep(rk[..], key, p + nk, x);
    rk[p + nk] := x;
  }

  /** RK[nk + t] = RK[t] ^ RK[nk + t - 1]. */
  method PlainLine(rk: array<bv32>, p: nat, i: nat, t: nat, ghost key: seq<Col>, nk: nat)
    requires nk == |key| && p == nk * i && 0 < t < nk && p + nk + t < 64 && Expanded(rk[..], key, p + nk + t)
    requires !(nk == 8 && t == 4)
    modifies rk
    ensures Expanded(rk[..], key, p + nk + t + 1)
  {
    hide Word, Xor, AddCol, SubCol, RotWord, KeyWord, Expanded;
    KeyLengths(rk[..], key, p + nk + t);
    ExpandedAt(rk[..], key, p + nk + t, p + t);
    ExpandedAt(rk[..], key, p + nk + t, p + nk + t - 1);
    WordXor(KeyWord(key, p + t), KeyWord(key, p + nk + t - 1));
    NextKeyWord(key, i, t);
    GroupStart(nk, i);
    ExpandedStep(rk[..], key, p + nk + t, Xor(rk[p + t], rk[p + nk + t - 1]));
    rk[p + nk + t] := Xor(rk[p + t], rk[p + nk + t - 1]);
  }

  /** RK[12] of the 256-bit schedule: S-box without rotation. */
  method SubLine(g: AesGlobals, rk: array<bv32>, p: nat, i: nat, ghost key: seq<Col>)
    requires g.Allocated() && g.Generated(256) && rk !in g.Arrays()
    requires |key| == 8 && p == 8 * i && p + 12 < 64 && Expanded(rk[..], key, p + 12)
    modifies rk
    ensures Expanded(rk[..], key, p + 13)
  {
    hide Word, Xor, TableOf, AddCol, SubCol, RotWord, KeyWord, Expanded;
    KeyLengths(rk[..], key, p + 12);
    ExpandedAt(rk[..], key, p + 12, p + 4);
    ExpandedAt(rk[..], key, p + 12, p + 11);
    var x := SubWordLine(g, rk[p + 4], rk[p + 11], false, KeyWord(key, p + 4), KeyWord(key, p + 11));
    NextKeyWord(key, i, 4);
    GroupStart(8, i);
    ExpandedStep(rk[..], key, p + 12, x);
    rk[p + 12] := x;
  }

  /** The key bytes become the first words of the schedule. */
  method LoadKey(bytes: array<bv8>, rk: array<bv32>, nk: nat) returns (ghost key: seq<Col>)
    requires (nk == 4 || nk == 6 || nk == 8) && 4 * nk <= bytes.Length && rk.Length == 64
    modifies rk
    ensures key == KeyOf(bytes[..], nk) && Expanded(rk[..], key, nk)
  {
    hide Word;
    key := KeyOf(bytes[..], nk);
    for i := 0 to nk
      invariant Expanded(rk[..], key, i)
    {
      rk[i] := GetUint32(bytes[..], 4 * i);
      assert bytes[..][4 * i] == bytes[4 * i] && KeyWord(key, i) == key[i];
    }
  }

  method Expand128(g: AesGlobals, rk: array<bv32>, ghost key: seq<Col>)
    requires g.Allocated() && g.Generated(256) && g.RconReady() && rk !in g.Arrays()
    requires |key| == 4 && Expanded(rk[..], key, 4)
    modifies rk
    ensures Expanded(rk[..], key, 44)
  {
    hide Expanded, TableOf;
    var p := 0;
    for i := 0 to 10
      invariant p == 4 * i && Expanded(rk[..], key, p + 4)
    {
      RconLine(g, rk, p, i, key, 4);
      PlainLine(rk, p, i, 1, key, 4);
      PlainLine(rk, p, i, 2, key, 4);
      PlainLine(rk, p, i, 3, key, 4);
      p := p + 4;
    }
  }

  method Expand192(g: AesGlobals, rk: array<bv32>, ghost key: seq<Col>)
    requires g.Allocated() && g.Generated(256) && g.RconReady() && rk !in g.Arrays()
    requires |key| == 6 && Expanded(rk[..], key, 6)
    modifies rk
    ensures Expanded(rk[..], key, 54)
  {
    hide Expanded, TableOf;
    var p := 0;
    for i := 0 to 8
      invariant p == 6 * i && Expanded(rk[..], key, p + 6)
    {
      RconLine(g, rk, p, i, key, 6);
      PlainLine(rk, p, i, 1, key, 6);
      PlainLine(rk, p, i, 2, key, 6);
      PlainLine(rk, p, i, 3, key, 6);
      PlainLine(rk, p, i, 4, key, 6);
      PlainLine(rk, p, i, 5, key, 6);
      p := p + 6;
    }
  }

  method Expand256(g: AesGlobals, rk: array<bv32>, ghost key: seq<Col>)
    requires g.Allocated() && g.Generated(256) && g.RconReady() && rk !in g.Arrays()
    requires |key| == 8 && Expanded(rk[..], key, 8)
    modifies rk
    ensures Expanded(rk[..], key, 64)
  {
    hide Expanded, TableOf;
    var p := 0;
    for i := 0 to 7
      invariant p == 8 * i && Expanded(rk[..], key, p + 8)
    {
      RconLine(g, rk, p, i, key, 8);
      PlainLine(rk, p, i, 1, key, 8);
      PlainLine(rk, p, i, 2, key, 8);
      PlainLine(rk, p, i, 3, key, 8);
      SubLine(g, rk, p, i, key);
      PlainLine(rk, p, i, 5, key, 8);
      PlainLine(rk, p, i, 6, key, 8);
      PlainLine(rk, p, i, 7, key, 8);
      p := p + 8;
    }
  }

  lemma ExpandedRoundKey(rk: seq<bv32>, key: seq<Col>, n: nat, r: nat)
    requires Expanded(rk, key, n) && 4 * r + 4 <= n
    ensures HoldsRoundKey(rk, 4 * r, RoundKey(key, r))
  {
    hide KeyWord, Word;
  }

  // ----- the decryption schedule

  lemma HoldsSamePrefix(a: seq<bv32>, b: seq<bv32>, n: nat, p: nat, k: State)
    requires HoldsRoundKey(a, p, k) && p + 4 <= n <= |a| && n <= |b| && a[..n] == b[..n]
    ensures HoldsRoundKey(b, p, k)
  {
    hide Word;
    assert forall j :: 0 <= j < n ==> a[j] == a[..n][j] == b[j];
  }

  /** Four words copied from one schedule to the other. */
  method CopyRoundKey(rk: array<bv32>, p: nat, sk: array<bv32>, q: nat, ghost k: State)
    requires rk != sk && HoldsRoundKey(rk[..], p, k) && q + 4 <= sk.Length
    modifies sk
    ensures HoldsRoundKey(sk[..], q, k) && sk[..q] == old(sk[..q])
  {
    hide Word;
    sk[q], sk[q + 1], sk[q + 2], sk[q + 3] := rk[p], rk[p + 1], rk[p + 2], rk[p + 3];
  }

  /** One word of the decryption schedule, through the key tables. */
  method InvKeyLine(g: AesGlobals, w: bv32, ghost c: Col) returns (x: bv32)
    requires g.KeyTablesOf(256) && w == Word(c)
    ensures x == Word(InvMixCol(c))
  {
    hide Word, Bytes, Xor4, Entry, TableOf, Index, InvMixCol;
    BytesWord(c);
    var b := Bytes(w);
    TableEntry(g.kt0[..], KT(0), b.b0);
    TableEntry(g.kt1[..], KT(1), b.b1);
    TableEntry(g.kt2[..], KT(2), b.b2);
    TableEntry(g.kt3[..], KT(3), b.b3);
    x := Xor4(g.kt0[Index(b.b0)], g.kt1[Index(b.b1)], g.kt2[Index(b.b2)], g.kt3[Index(b.b3)]);
    KeyEntries(c);
  }

  method InvKeyRound(g: AesGlobals, rk: array<bv32>, p: nat, sk: array<bv32>, q: nat, ghost k: State)
    requires g.KeyTablesOf(256) && sk !in g.Arrays() && rk != sk
    requires HoldsRoundKey(rk[..], p, k) && q + 4 <= sk.Length
    modifies sk
    ensures HoldsRoundKey(sk[..], q, InvMixColumns(k)) && sk[..q] == old(sk[..q])
  {
    hide Word, InvMixCol, TableOf;
    var x0 := InvKeyLine(g, rk[p], k.c0);
    var x1 := InvKeyLine(g, rk[p + 1], k.c1);
    var x2 := InvKeyLine(g, rk[p + 2], k.c2);
    var x3 := InvKeyLine(g, rk[p + 3], k.c3);
    sk[q], sk[q + 1], sk[q + 2], sk[q + 3] := x0, x1, x2, x3;
  }

  /** The first n round keys of the decryption schedule are in place. */
  ghost predicate Inverted(sk: seq<bv32>, key: seq<Col>, n: nat) {
    ValidKey(key) && n <= Rounds(key) + 1 && forall r :: 0 <= r < n ==> HoldsRoundKey(sk, 4 * r, InvRoundKey(key, r))
  }

  lemma InvertedStep(before: seq<bv32>, sk: seq<bv32>, key: seq<Col>, n: nat)
    requires Inverted(before, key, n) && n <= Rounds(key) && 4 * n <= |before| && 4 * n <= |sk|
    requires before[..4 * n] == sk[..4 * n]
    requires HoldsRoundKey(sk, 4 * n, InvRoundKey(key, n))
    ensures Inverted(sk, key, n + 1)
  {
    hide HoldsRoundKey, InvRoundKey;
    forall r | 0 <= r < n ensures HoldsRoundKey(sk, 4 * r, InvRoundKey(key, r)) {
      HoldsSamePrefix(before, sk, 4 * n, 4 * r, InvRoundKey(key, r));
    }
  }

  /** The loop with the pointer that steps back eight words and forward four. */
  method Invert(g: AesGlobals, rk: array<bv32>, sk: array<bv32>, nr: nat, ghost key: seq<Col>)
    requires g.KeyTablesOf(256) && sk !in g.Arrays() && rk != sk && sk.Length == 64
    requires ValidKey(key) && nr == Rounds(key) && Expanded(rk[..], key, 4 * nr + 4)
    modifies sk
    ensures Inverted(sk[..], key, nr + 1)
  {
    hide Expanded, HoldsRoundKey, RoundKey, InvMixColumns, TableOf;
    var p, q := 4 * nr, 0;
    ExpandedRoundKey(rk[..], key, 4 * nr + 4, nr);
    ghost var before := sk[..];
    CopyRoundKey(rk, p, sk, q, RoundKey(key, nr));
    InvertedStep(before, sk[..], key, 0);
    p, q := p + 4, q + 4;
    for i := 1 to nr
      invariant p == 4 * (nr - i) + 8 && q == 4 * i && Inverted(sk[..], key, i)
      invariant Expanded(rk[..], key, 4 * nr + 4)
    {
      p := p - 8;
      ExpandedRoundKey(rk[..], key, 4 * nr + 4, nr - i);
      before := sk[..];
      InvKeyRound(g, rk, p, sk, q, RoundKey(key, nr - i));
      InvertedStep(before, sk[..], key, i);
      p, q := p + 4, q + 4;
    }
    p := p - 8;
    ExpandedRoundKey(rk[..], key, 4 * nr + 4, 0);
    before := sk[..];
    CopyRoundKey(rk, p, sk, q, RoundKey(key, 0));
    InvertedStep(before, sk[..], key, nr);
  }

  // ----- aes_set_key

  /** Tables on first use; they are never changed again. */
  method EnsureTables(g: AesGlobals)
    requires g.Ready()
    modifies g`doInit, g.fsb, g.rsb, g.ft0, g.ft1, g.ft2, g.ft3, g.rt0, g.rt1, g.rt2, g.rt3, g.rcon
    ensures g.Ready() && !g.doInit && g.ktInit == old(g.ktInit)
  {
    hide g.Generated, g.RconReady, g.KeyTablesOf;
    if g.doInit {
      g.GenTables();
      g.doInit := false;
    }
  }

  method EnsureKeyTables(g: AesGlobals)
    requires g.Ready() && !g.doInit
    modifies g`ktInit, g.kt0, g.kt1, g.kt2, g.kt3
    ensures g.Ready() && !g.doInit && !g.ktInit
  {
    hide g.Generated, g.RconReady, g.KeyTablesOf;
    if g.ktInit {
      GenKeyTables(g);
      g.ktInit := false;
    }
  }

  predicate ValidBits(nbits: int) {
    nbits == 128 || nbits == 192 || nbits == 256
  }

  lemma ExpandedPrefix(rk: seq<bv32>, key: seq<Col>, n: nat, m: nat)
    requires Expanded(rk, key, n) && m <= n
    ensures Expanded(rk, key, m)
  {
    hide KeyWord, Word;
  }

  /** The encryption schedule for each key length. */
  method ExpandKey(g: AesGlobals, bytes: array<bv8>, rk: array<bv32>, nbits: nat) returns (ghost key: seq<Col>)
    requires g.Allocated() && g.Generated(256) && g.RconReady() && rk !in g.Arrays() && rk.Length == 64
    requires ValidBits(nbits) && nbits <= 8 * bytes.Length
    modifies rk
    ensures key == KeyOf(bytes[..], nbits / 32) && ValidKey(key) && Expanded(rk[..], key, 4 * Rounds(key) + 4)
  {
    hide Expanded, TableOf;
    key := LoadKey(bytes, rk, nbits / 32);
    match nbits
    case 128 => Expand128(g, rk, key);
    case 192 => Expand192(g, rk, key); ExpandedPrefix(rk[..], key, 54, 52);
    case 256 => Expand256(g, rk, key); ExpandedPrefix(rk[..], key, 64, 60);
  }

  lemma KeyedFromSchedules(ctx: AesContext, key: seq<Col>)
    requires ctx.erk.Length == ctx.drk.Length == 64 && ValidKey(key) && ctx.nr == Rounds(key)
    requires Expanded(ctx.erk[..], key, 4 * ctx.nr + 4) && Inverted(ctx.drk[..], key, ctx.nr + 1)
    ensures ctx.Keyed(key)
  {
    hide Expanded, HoldsRoundKey, RoundKey, InvRoundKey;
    forall r | 0 <= r <= ctx.nr ensures HoldsRoundKey(ctx.erk[..], 4 * r, RoundKey(key, r)) {
      ExpandedRoundKey(ctx.erk[..], key, 4 * ctx.nr + 4, r);
    }
  }

  /** The arrays of a context, apart from each other and from the global tables. */
  ghost predicate Separate(g: AesGlobals, ctx: AesContext) {
    ctx.erk.Length == ctx.drk.Length == 64 && ctx.erk != ctx.drk && ctx.erk !in g.Arrays() && ctx.drk !in g.Arrays()
  }

  /** Both schedules, and the key tables on first use. */
  method BuildSchedules(g: AesGlobals, ctx: AesContext, bytes: array<bv8>, nbits: int)
    requires g.Ready() && !g.doInit && Separate(g, ctx) && ValidBits(nbits) && nbits <= 8 * bytes.Length
    requires ctx.nr == nbits / 32 + 6
    modifies g`ktInit, g.kt0, g.kt1, g.kt2, g.kt3, ctx.erk, ctx.drk
    ensures g.Ready() && !g.doInit && ctx.Keyed(KeyOf(old(bytes[..]), nbits / 32))
  {
    hide Expanded, HoldsRoundKey, Inverted, TableOf, g.KeyTablesOf, g.Generated, g.RconReady, g.Allocated;
    ghost var key := ExpandKey(g, bytes, ctx.erk, nbits);
    EnsureKeyTables(g);
    Invert(g, ctx.erk, ctx.drk, ctx.nr, key);
    KeyedFromSchedules(ctx, key);
  }

  /**
    * aes_set_key: both schedules for a key of 128, 192 or 256 bits, 1 for any other length. A length that is
    * refused leaves the context as it was.
    */
  method SetKey(g: AesGlobals, ctx: AesContext, bytes: array<bv8>, nbits: int) returns (rc: int)
    requires g.Ready() && Separate(g, ctx) && (ValidBits(nbits) ==> nbits <= 8 * bytes.Length)
    modifies g, g.Arrays(), ctx, ctx.erk, ctx.drk
    ensures g.Ready() && !g.doInit
    ensures rc == if ValidBits(nbits) then 0 else 1
    ensures rc == 0 ==> ctx.Keyed(KeyOf(old(bytes[..]), nbits / 32))
    ensures rc != 0 ==> unchanged(ctx, ctx.erk, ctx.drk)
  {
    hide Expanded, HoldsRoundKey, Inverted, TableOf, g.KeyTablesOf, g.Generated, g.RconReady, g.Allocated;
    EnsureTables(g);
    match nbits {
      case 128 => ctx.nr := 10;
      case 192 => ctx.nr := 12;
      case 256 => ctx.nr := 14;
      case _ => return 1;
    }
    BuildSchedules(g, ctx, bytes, nbits);
    rc := 0;
  }

  function BlockSeq(s: State): seq<bv8> {
    [s.c0.b0, s.c0.b1, s.c0.b2, s.c0.b3] + [s.c1.b0, s.c1.b1, s.c1.b2, s.c1.b3]
    + [s.c2.b0, s.c2.b1, s.c2.b2, s.c2.b3] + [s.c3.b0, s.c3.b1, s.c3.b2, s.c3.b3]
  }

  lemma BlockStateLossless(b: seq<bv8>)
    requires |b| == 16
    ensures BlockSeq(BlockState(b)) == b
  {
  }

  /** A key set once: what aes_encrypt wrote, aes_decrypt turns back, for every key and block. */
  method RoundTrip(g: AesGlobals, ctx: AesContext, bytes: array<bv8>, nbits: int, block: array<bv8>)
    requires g.Ready() && Separate(g, ctx) && ValidBits(nbits) && nbits <= 8 * bytes.Length && block.Length == 16
    requires block !in g.Arrays() && bytes != block
    modifies g, g.Arrays(), ctx, ctx.erk, ctx.drk, block
    ensures block[..] == old(block[..])
  {
    hide HoldsRoundKey, TableOf, g.KeyTablesOf, g.RconReady, BlockState, BlockSeq, Cipher, EqInvCipher;
    var rc := SetKey(g, ctx, bytes, nbits);
    ghost var key := KeyOf(old(bytes[..]), nbits / 32);
    Encrypt(g, ctx, block, block, key);
    Decrypt(g, ctx, block, block, key);
    DecryptionUndoesEncryption(key, old(BlockState(block[..])));
    BlockStateLossless(block[..]);
    BlockStateLossless(old(block[..]));
  }
}
