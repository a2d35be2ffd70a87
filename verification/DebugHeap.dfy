/** The fields of the debug version of the memory heap: mem0dbg.cc and mem0dbg.h. */
module DebugFields {
  import opened Words
  import opened Codec
  import opened Wrappers

  const ALIGNMENT := 8

  /** ut_calc_align. */
  function Align(n: nat): (a: nat)
    ensures a >= n && a % ALIGNMENT == 0 && a < n + ALIGNMENT
  {
    (n + 7) / 8 * 8
  }

  /** sizeof(ulint) on the platforms of the source. */
  predicate WordSize(w: nat) {
    w == 4 || w == 8
  }

  /** MEM_FIELD_HEADER_SIZE. */
  function HeaderSize(w: nat): nat {
    Align(2 * w)
  }

  /** MEM_SPACE_NEEDED. */
  function SpaceNeeded(w: nat, n: nat): (s: nat)
    ensures s >= n + HeaderSize(w) + w
  {
    Align(n + HeaderSize(w) + w)
  }

  /** Where the user's bytes begin in a field at a position. */
  function User(w: nat, at: nat): nat {
    at + HeaderSize(w)
  }

  /** A field of n user bytes: its space is there and its header says n. */
  ghost predicate FieldAt(w: nat, data: seq<Byte>, at: nat, n: nat)
    requires WordSize(w)
  {
    at + SpaceNeeded(w, n) <= |data| && ReadFrom4(data, User(w, at) - 2 * w) == n
  }

  /** The check words before and behind the user's bytes agree. */
  ghost predicate ChecksAgree(w: nat, data: seq<Byte>, at: nat, n: nat)
    requires WordSize(w) && FieldAt(w, data, at, n)
  {
    ReadFrom4(data, User(w, at) - w) == ReadFrom4(data, User(w, at) + n)
  }

  /** Fields of the given lengths stand one behind the other and end at `to`. */
  ghost predicate Fields(w: nat, data: seq<Byte>, from: nat, lens: seq<nat>, to: nat)
    requires WordSize(w)
    decreases |lens|
  {
    if lens == [] then from == to
    else FieldAt(w, data, from, lens[0]) && Fields(w, data, from + SpaceNeeded(w, lens[0]), lens[1..], to)
  }

  ghost predicate AllAgree(w: nat, data: seq<Byte>, from: nat, lens: seq<nat>, to: nat)
    requires WordSize(w) && Fields(w, data, from, lens, to)
    decreases |lens|
  {
    lens == [] || (ChecksAgree(w, data, from, lens[0])
                   && AllAgree(w, data, from + SpaceNeeded(w, lens[0]), lens[1..], to))
  }

  function Sum(lens: seq<nat>): nat {
    if lens == [] then 0 else lens[0] + Sum(lens[1..])
  }

  // ----- mem_field_init

  /** What does not fit into k bytes is cut off. */
  lemma {:induction false} CutOff(m: nat, q: nat, k: nat)
    ensures BE(m + q * Limit(k), k) == BE(m, k)
    decreases k
  {
    if k > 0 {
      var c := q * Limit(k - 1);
      assert q * Limit(k) == c * 0x100;
      Shifted(m, c, 0x100);
      LowPart(m, c * 0x100);
      CutOff(m / 0x100, q, k - 1);
      BENext(m, k - 1);
      BENext(m + c * 0x100, k - 1);
    }
  }

  lemma LowFourBytes(n: nat)
    ensures BE(n % TWO32, 4) == BE(n, 4)
  {
    hide BE, Limit;
    Limits();
    CutOff(n % TWO32, n / TWO32, 4);
  }

  lemma ReadWritten(before: seq<Byte>, after: seq<Byte>, at: nat, n: nat)
    requires at + 4 <= |before| && after == before[..at] + BE(n, 4) + before[at + 4..]
    ensures |after| == |before| && ReadFrom4(after, at) == n % TWO32
  {
    hide BE, ReadFrom4;
    LowFourBytes(n);
    assert after[at..at + 4] == BE(n % TWO32, 4);
    ReadFour4(n % TWO32, after, at);
  }

  /** Reading four bytes depends on them only. */
  lemma SameBytes(a: seq<Byte>, b: seq<Byte>, at: nat)
    requires at + 4 <= |a| == |b| && forall k :: at <= k < at + 4 ==> a[k] == b[k]
    ensures ReadFrom4(a, at) == ReadFrom4(b, at)
  {
  }

  /** mem_init_buf: a random combination of 0xBA and 0xBE. */
  method InitBuf(buf: array<Byte>, at: nat, n: nat, coins: seq<bool>)
    requires at + n <= buf.Length && |coins| == n
    modifies buf
    ensures forall k :: 0 <= k < buf.Length && !(at <= k < at + n) ==> buf[k] == old(buf[k])
    ensures forall k :: at <= k < at + n ==> buf[k] == if coins[k - at] then 0xBA else 0xBE
  {
    for i := 0 to n
      invariant forall k :: 0 <= k < buf.Length && !(at <= k < at + n) ==> buf[k] == old(buf[k])
      invariant forall k :: at <= k < at + i ==> buf[k] == if coins[k - at] then 0xBA else 0xBE
    {
      buf[at + i] := if coins[i] then 0xBA else 0xBE;
    }
  }

  /** mach_write: the number modulo 2^32 is there to read, and the bytes beside it stay. */
  method PutWord(buf: array<Byte>, at: nat, n: nat)
    requires at + 4 <= buf.Length
    modifies buf
    ensures ReadFrom4(buf[..], at) == n % TWO32
    ensures forall k :: 0 <= k < buf.Length && !(at <= k < at + 4) ==> buf[k] == old(buf[k])
  {
    ghost var before := buf[..];
    WriteTo4(buf, at, n);
    ReadWritten(before, buf[..], at, n);
    ghost var after := buf[..];
    forall k | 0 <= k < buf.Length && !(at <= k < at + 4) ensures buf[k] == before[k] {
      assert buf[k] == after[k];
    }
  }

  /** mem_field_init, without the statistics: the field is there and its checks agree; nothing else is touched. */
  method FieldInit(w: nat, buf: array<Byte>, at: nat, n: nat, rnd: nat, coins: seq<bool>)
    requires WordSize(w) && n < TWO32 && at + SpaceNeeded(w, n) <= buf.Length && |coins| == n
    modifies buf
    ensures FieldAt(w, buf[..], at, n) && ChecksAgree(w, buf[..], at, n)
    ensures forall k :: 0 <= k < buf.Length && !(at <= k < at + SpaceNeeded(w, n)) ==> buf[k] == old(buf[k])
  {
    hide ReadFrom4, BE;
    var u := User(w, at);
    PutWord(buf, u - 2 * w, n);
    ghost var s1 := buf[..];
    PutWord(buf, u - w, rnd);
    ghost var s2 := buf[..];
    SameBytes(s1, s2, u - 2 * w);
    PutWord(buf, u + n, rnd);
    ghost var s3 := buf[..];
    SameBytes(s2, s3, u - 2 * w);
    SameBytes(s2, s3, u - w);
    InitBuf(buf, u, n, coins);
    ghost var s4 := buf[..];
    SameBytes(s3, s4, u - 2 * w);
    SameBytes(s3, s4, u - w);
    SameBytes(s3, s4, u + n);
  }

  /** mem_erase_buf: a random combination of 0xDE and 0xAD. */
  method EraseBuf(buf: array<Byte>, at: nat, n: nat, coins: seq<bool>)
    requires at + n <= buf.Length && |coins| == n
    modifies buf
    ensures forall k :: 0 <= k < buf.Length && !(at <= k < at + n) ==> buf[k] == old(buf[k])
    ensures forall k :: at <= k < at + n ==> buf[k] == if coins[k - at] then 0xDE else 0xAD
  {
    for i := 0 to n
      invariant forall k :: 0 <= k < buf.Length && !(at <= k < at + n) ==> buf[k] == old(buf[k])
      invariant forall k :: at <= k < at + i ==> buf[k] == if coins[k - at] then 0xDE else 0xAD
    {
      buf[at + i] := if coins[i] then 0xDE else 0xAD;
    }
  }

  // ----- what the user may do

  /** Bytes that belong to the user of some field. */
  ghost predicate UserByte(w: nat, from: nat, lens: seq<nat>, k: nat)
    decreases |lens|
  {
    lens != [] && (User(w, from) <= k < User(w, from) + lens[0] || UserByte(w, from + SpaceNeeded(w, lens[0]), lens[1..], k))
  }

  lemma {:induction false} UserBytesAhead(w: nat, from: nat, lens: seq<nat>, k: nat)
    requires WordSize(w) && UserByte(w, from, lens, k)
    ensures k >= from + HeaderSize(w)
    decreases |lens|
  {
    if !(User(w, from) <= k < User(w, from) + lens[0]) {
      UserBytesAhead(w, from + SpaceNeeded(w, lens[0]), lens[1..], k);
    }
  }

  /** Bytes of a field other than the user's belong to nobody's data. */
  lemma CheckBytesApart(w: nat, from: nat, lens: seq<nat>, k: nat)
    requires WordSize(w) && lens != [] && from <= k < from + SpaceNeeded(w, lens[0])
    ensures UserByte(w, from, lens, k) <==> User(w, from) <= k < User(w, from) + lens[0]
  {
    if UserByte(w, from + SpaceNeeded(w, lens[0]), lens[1..], k) {
      UserBytesAhead(w, from + SpaceNeeded(w, lens[0]), lens[1..], k);
    }
  }

  lemma FirstUserBytesEnd(w: nat, from: nat, n: nat)
    ensures User(w, from) + n <= from + SpaceNeeded(w, n)
  {
  }

  lemma UserWritesInFirst(w: nat, a: seq<Byte>, b: seq<Byte>, from: nat, lens: seq<nat>)
    requires WordSize(w) && lens != [] && FieldAt(w, a, from, lens[0]) && |a| == |b|
    requires forall k: nat :: from <= k < |a| && !UserByte(w, from, lens, k) ==> b[k] == a[k]
    ensures FieldAt(w, b, from, lens[0])
    ensures ChecksAgree(w, b, from, lens[0]) <==> ChecksAgree(w, a, from, lens[0])
  {
    hide ReadFrom4, UserByte;
    var n, u := lens[0], User(w, from);
    forall k: nat | from <= k < from + SpaceNeeded(w, n) && !(u <= k < u + n) ensures b[k] == a[k] {
      CheckBytesApart(w, from, lens, k);
    }
    SameBytes(a, b, u - 2 * w);
    SameBytes(a, b, u - w);
    SameBytes(a, b, u + n);
  }

  /** Whatever the users write inside their fields, the fields stay and their checks stay. */
  lemma {:induction false} UserWritesAreInvisible(w: nat, a: seq<Byte>, b: seq<Byte>, from: nat, lens: seq<nat>, to: nat)
    requires WordSize(w) && Fields(w, a, from, lens, to) && |a| == |b|
    requires forall k: nat :: from <= k < |a| && !UserByte(w, from, lens, k) ==> b[k] == a[k]
    ensures Fields(w, b, from, lens, to) && (AllAgree(w, b, from, lens, to) <==> AllAgree(w, a, from, lens, to))
    decreases |lens|
  {
    hide ReadFrom4, SpaceNeeded, HeaderSize, FieldAt, ChecksAgree;
    if lens != [] {
      var next := from + SpaceNeeded(w, lens[0]);
      UserWritesInFirst(w, a, b, from, lens);
      forall k: nat | next <= k < |a| && !UserByte(w, next, lens[1..], k) ensures b[k] == a[k] {
        FirstUserBytesEnd(w, from, lens[0]);
      }
      UserWritesAreInvisible(w, a, b, next, lens[1..], to);
    }
  }

  /** The fields without the last one. */
  lemma {:induction false} LastFieldGone(w: nat, data: seq<Byte>, from: nat, lens: seq<nat>, to: nat)
    requires WordSize(w) && Fields(w, data, from, lens, to) && AllAgree(w, data, from, lens, to) && lens != []
    ensures var n := lens[|lens| - 1];
      && to >= from + SpaceNeeded(w, n) && FieldAt(w, data, to - SpaceNeeded(w, n), n)
      && Fields(w, data, from, lens[..|lens| - 1], to - SpaceNeeded(w, n))
      && AllAgree(w, data, from, lens[..|lens| - 1], to - SpaceNeeded(w, n))
      && Sum(lens) == Sum(lens[..|lens| - 1]) + n
    decreases |lens|
  {
    hide FieldAt, ChecksAgree, SpaceNeeded;
    var rest := lens[1..];
    if rest == [] {
      assert lens[..0] == [];
    } else {
      LastFieldGone(w, data, from + SpaceNeeded(w, lens[0]), rest, to);
      assert lens[..|lens| - 1][1..] == rest[..|rest| - 1];
    }
  }

  /** A field that is made behind the others. */
  lemma {:induction false} FieldAppended(w: nat, data: seq<Byte>, from: nat, lens: seq<nat>, to: nat, n: nat)
    requires WordSize(w) && Fields(w, data, from, lens, to) && FieldAt(w, data, to, n)
    ensures Fields(w, data, from, lens + [n], to + SpaceNeeded(w, n))
    ensures AllAgree(w, data, from, lens + [n], to + SpaceNeeded(w, n)) <==>
            AllAgree(w, data, from, lens, to) && ChecksAgree(w, data, to, n)
    ensures Sum(lens + [n]) == Sum(lens) + n
    decreases |lens|
  {
    hide ReadFrom4, SpaceNeeded;
    if lens == [] {
      assert lens + [n] == [n];
    } else {
      assert (lens + [n])[1..] == lens[1..] + [n];
      FieldAppended(w, data, from + SpaceNeeded(w, lens[0]), lens[1..], to, n);
    }
  }

  lemma FirstBelow(w: nat, a: seq<Byte>, b: seq<Byte>, from: nat, n: nat)
    requires WordSize(w) && FieldAt(w, a, from, n) && |a| == |b|
    requires forall k :: from <= k < from + SpaceNeeded(w, n) ==> b[k] == a[k]
    ensures FieldAt(w, b, from, n) && (ChecksAgree(w, b, from, n) <==> ChecksAgree(w, a, from, n))
  {
    hide ReadFrom4;
    var u := User(w, from);
    SameBytes(a, b, u - 2 * w);
    SameBytes(a, b, u - w);
    SameBytes(a, b, u + n);
  }

  /** At the first free position there are no fields left. */
  lemma {:induction false} FieldsEnd(w: nat, data: seq<Byte>, from: nat, lens: seq<nat>, to: nat)
    requires WordSize(w) && Fields(w, data, from, lens, to)
    ensures from <= to && (from == to <==> lens == [])
    decreases |lens|
  {
    if lens != [] {
      FieldsEnd(w, data, from + SpaceNeeded(w, lens[0]), lens[1..], to);
    }
  }

  /** Making a field behind the others leaves them as they are. */
  lemma {:induction false} FieldsBelow(w: nat, a: seq<Byte>, b: seq<Byte>, from: nat, lens: seq<nat>, to: nat)
    requires WordSize(w) && Fields(w, a, from, lens, to) && |a| == |b| && forall k :: from <= k < to && k < |a| ==> b[k] == a[k]
    ensures Fields(w, b, from, lens, to) && (AllAgree(w, b, from, lens, to) <==> AllAgree(w, a, from, lens, to))
    decreases |lens|
  {
    if lens != [] {
      var next := from + SpaceNeeded(w, lens[0]);
      FieldsEnd(w, a, next, lens[1..], to);
      FirstBelow(w, a, b, from, lens[0]);
      hide ReadFrom4, SpaceNeeded, FieldAt, ChecksAgree;
      FieldsBelow(w, a, b, next, lens[1..], to);
    }
  }

  /** mem_heap_alloc's part in the debug version: one more field at the free position of a block. */
  method Allocate(w: nat, buf: array<Byte>, start: nat, free: nat, n: nat, rnd: nat, coins: seq<bool>, ghost lens: seq<nat>)
    returns (free': nat)
    requires WordSize(w) && n < TWO32 && free + SpaceNeeded(w, n) <= buf.Length && |coins| == n
    requires Fields(w, buf[..], start, lens, free) && AllAgree(w, buf[..], start, lens, free)
    modifies buf
    ensures free' == free + SpaceNeeded(w, n)
    ensures Fields(w, buf[..], start, lens + [n], free') && AllAgree(w, buf[..], start, lens + [n], free')
  {
    hide ReadFrom4, SpaceNeeded, FieldAt, ChecksAgree, Fields, AllAgree;
    ghost var before := buf[..];
    FieldInit(w, buf, free, n, rnd, coins);
    FieldsBelow(w, before, buf[..], start, lens, free);
    FieldAppended(w, buf[..], start, lens, free, n);
    free' := free + SpaceNeeded(w, n);
  }

  // ----- mem_heap_validate_or_print, one block

  /** What the walk over a block comes to: the end, with the bytes of the users; the position to stop at, with the
      bytes below it; an error; or a read behind the memory at hand, which a damaged length can cause. */
  datatype Verdict = Sound(total: nat) | Reached(total: nat) | Broken | Outside

  function Walk(w: nat, data: seq<Byte>, from: nat, free: nat, total: nat, top: Option<nat>): Verdict
    requires WordSize(w)
    decreases free - from
  {
    var user := User(w, from);
    if top == Some(from) then Reached(total)
    else if from >= free then if from == free then Sound(total) else Broken
    else if user > |data| then Outside
    else
      var len := ReadFrom4(data, user - 2 * w);
      if user + len + 4 > |data| then Outside
      else if ReadFrom4(data, user - w) != ReadFrom4(data, user + len) then Broken
      else Walk(w, data, from + SpaceNeeded(w, len), free, total + len, top)
  }

  /** On a block of fields: an error iff some checks disagree, and otherwise the sum of the requested sizes. */
  lemma {:induction false} WalkOfFields(w: nat, data: seq<Byte>, from: nat, lens: seq<nat>, free: nat, total: nat)
    requires WordSize(w) && Fields(w, data, from, lens, free)
    ensures Walk(w, data, from, free, total, None)
            == if AllAgree(w, data, from, lens, free) then Sound(total + Sum(lens)) else Broken
    decreases |lens|
  {
    hide ReadFrom4;
    FieldsEnd(w, data, from, lens, free);
    if lens != [] {
      WalkOfFields(w, data, from + SpaceNeeded(w, lens[0]), lens[1..], free, total + lens[0]);
    }
  }

  /** On a sound block, a walk up to the position behind the first k fields reports the sum of their sizes. */
  lemma {:induction false} WalkToField(w: nat, data: seq<Byte>, from: nat, lens: seq<nat>, free: nat, k: nat, top: nat, total: nat)
    requires WordSize(w) && Fields(w, data, from, lens, free) && AllAgree(w, data, from, lens, free)
    requires k <= |lens| && Fields(w, data, from, lens[..k], top)
    ensures Walk(w, data, from, free, total, Some(top)) == Reached(total + Sum(lens[..k]))
    decreases k
  {
    hide ReadFrom4;
    FieldsEnd(w, data, from, lens[..k], top);
    FieldsEnd(w, data, from, lens, free);
    if k > 0 {
      assert lens[..k][1..] == lens[1..][..k - 1];
      WalkToField(w, data, from + SpaceNeeded(w, lens[0]), lens[1..], free, k - 1, top, total + lens[0]);
    }
  }

  lemma {:induction false} SoundFields(w: nat, data: seq<Byte>, from: nat, free: nat, total: nat) returns (lens: seq<nat>)
    requires WordSize(w) && free <= |data| && Walk(w, data, from, free, total, None).Sound?
    ensures from <= free && Fields(w, data, from, lens, free) && AllAgree(w, data, from, lens, free)
    ensures Walk(w, data, from, free, total, None).total == total + Sum(lens)
    decreases free - from
  {
    hide ReadFrom4;
    lens := [];
    if from < free {
      var len := ReadFrom4(data, User(w, from) - 2 * w);
      var rest := SoundFields(w, data, from + SpaceNeeded(w, len), free, total + len);
      lens := [len] + rest;
      assert lens[1..] == rest;
    }
  }

  ghost predicate FilledWith(w: nat, data: seq<Byte>, start: nat, free: nat, lens: seq<nat>)
    requires WordSize(w)
  {
    Fields(w, data, start, lens, free) && AllAgree(w, data, start, lens, free)
  }

  /** Whatever the block holds, it passes iff it is filled with fields whose checks agree, and then what is
      reported is the sum of their sizes. */
  lemma SoundIff(w: nat, data: seq<Byte>, start: nat, free: nat, total: nat)
    requires WordSize(w) && free <= |data|
    ensures Walk(w, data, start, free, 0, None) == Sound(total) <==>
            exists lens :: FilledWith(w, data, start, free, lens) && Sum(lens) == total
  {
    hide Walk, Fields, AllAgree;
    if Walk(w, data, start, free, 0, None) == Sound(total) {
      var lens := SoundFields(w, data, start, free, 0);
      assert FilledWith(w, data, start, free, lens);
    }
    if lens :| FilledWith(w, data, start, free, lens) && Sum(lens) == total {
      WalkOfFields(w, data, start, lens, free, 0);
    }
  }

  /** The loop over one block; `total0` are the bytes found in earlier blocks. */
  method ValidateBlock(w: nat, data: array<Byte>, start: nat, free: nat, total0: nat, top: Option<nat>) returns (verdict: Verdict)
    requires WordSize(w)
    ensures verdict == Walk(w, data[..], start, free, total0, top)
    ensures free <= data.Length && total0 == 0 && top == None ==>
              forall total :: verdict == Sound(total) <==>
                exists lens :: FilledWith(w, data[..], start, free, lens) && Sum(lens) == total
  {
    hide ReadFrom4, FilledWith;
    if free <= data.Length {
      forall total
        ensures Walk(w, data[..], start, free, 0, None) == Sound(total) <==>
                exists lens :: FilledWith(w, data[..], start, free, lens) && Sum(lens) == total
      {
        SoundIff(w, data[..], start, free, total);
      }
    }
    var field, total := start, total0;
    if top == Some(field) {
      return Reached(total);
    }
    while field < free
      invariant top != Some(field)
      invariant Walk(w, data[..], field, free, total, top) == Walk(w, data[..], start, free, total0, top)
      decreases free - field
    {
      var user := User(w, field);
      if user > data.Length {
        return Outside;
      }
      var len := ReadFrom4(data[..], user - 2 * w);
      total := total + len;
      if user + len + 4 > data.Length {
        return Outside;
      }
      if ReadFrom4(data[..], user - w) != ReadFrom4(data[..], user + len) {
        return Broken;
      }
      field := field + SpaceNeeded(w, len);
      if top == Some(field) {
        return Reached(total);
      }
    }
    return if field == free then Sound(total) else Broken;
  }
}
