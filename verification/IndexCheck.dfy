/** row_scan_and_check_index: a check of neighbours that settles a question about all entries. */
module IndexCheck {
  import opened Wrappers

  datatype Field = SqlNull | Value(v: int)

  type Entry = seq<Field>

  /** SQL NULL sorts before every value. */
  function CmpField(x: Field, y: Field): int {
    match (x, y)
    case (SqlNull, SqlNull) => 0
    case (SqlNull, Value(_)) => -1
    case (Value(_), SqlNull) => 1
    case (Value(a), Value(b)) => if a < b then -1 else if a > b then 1 else 0
  }

  /** The number of leading fields on which two entries agree: matched_fields. */
  function Matched(a: Entry, b: Entry): (n: nat)
    ensures n <= |a| && n <= |b|
    ensures a[..n] == b[..n]
    ensures n < |a| && n < |b| ==> a[n] != b[n]
  {
    if a == [] || b == [] || a[0] != b[0] then 0
    else
      assert a == [a[0]] + a[1..] && b == [b[0]] + b[1..];
      1 + Matched(a[1..], b[1..])
  }

  /** The comparison of entries of the same length: the first field that differs decides. */
  function Cmp(a: Entry, b: Entry): int
    requires |a| == |b|
  {
    var n := Matched(a, b);
    if n == |a| then 0 else CmpField(a[n], b[n])
  }

  lemma {:induction false} SameMatched(a: Entry, b: Entry)
    ensures Matched(a, b) == Matched(b, a)
  {
    if a != [] && b != [] && a[0] == b[0] {
      SameMatched(a[1..], b[1..]);
    }
  }

  /** NULL is before every value, and values are in the order of numbers. */
  predicate FieldBefore(x: Field, y: Field) {
    y.Value? && (x.SqlNull? || x.v < y.v)
  }

  lemma MatchedIsMost(a: Entry, b: Entry, k: nat)
    requires k <= |a| && k <= |b| && a[..k] == b[..k]
    ensures Matched(a, b) >= k
  {
    hide Matched;
    forall i | 0 <= i < k ensures a[i] == b[i] {
      assert a[..k][i] == b[..k][i];
    }
  }

  lemma AgreeBelow(a: Entry, b: Entry, i: nat)
    requires i < Matched(a, b)
    ensures a[i] == b[i]
  {
    assert a[i] == a[..Matched(a, b)][i] == b[..Matched(a, b)][i] == b[i];
  }

  /** An entry compares as smaller iff it is before the other at the first field in which they differ. */
  lemma CmpMeaning(a: Entry, b: Entry)
    requires |a| == |b|
    ensures Cmp(a, b) < 0 <==> exists n :: 0 <= n < |a| && a[..n] == b[..n] && FieldBefore(a[n], b[n])
    ensures Cmp(a, b) == 0 <==> a == b
    ensures Cmp(a, b) > 0 <==> Cmp(b, a) < 0
  {
    hide Matched;
    var n := Matched(a, b);
    if n == |a| {
      assert a == a[..n] == b[..n] == b;
    }
    forall m | 0 <= m < |a| && a[..m] == b[..m] ensures m <= n {
      MatchedIsMost(a, b, m);
    }
    forall m | 0 <= m < n ensures a[m] == b[m] {
      AgreeBelow(a, b, m);
    }
    SameMatched(a, b);
  }

  predicate ContainsNull(a: Entry, nOrdering: nat)
    requires nOrdering <= |a|
  {
    exists i :: 0 <= i < nOrdering && a[i] == SqlNull
  }

  /** All entries have the fields of the index; the first nOrdering were named by the user. */
  datatype Index = Index(nFields: nat, nOrdering: nat, unique: bool) {
    predicate Valid() {
      nOrdering <= nFields
    }
  }

  ghost predicate EntriesOf(ix: Index, entries: seq<Entry>) {
    forall i :: 0 <= i < |entries| ==> |entries[i]| == ix.nFields
  }

  /** The whole scan is in ascending order. */
  ghost predicate Ascending(ix: Index, entries: seq<Entry>)
    requires EntriesOf(ix, entries)
  {
    forall i, j :: 0 <= i < j < |entries| ==> Cmp(entries[i], entries[j]) <= 0
  }

  /** Two entries that break a unique constraint: the same values, none of them NULL, in all ordering fields. */
  predicate Duplicates(ix: Index, a: Entry, b: Entry)
    requires ix.Valid() && |a| == |b| == ix.nFields
  {
    !ContainsNull(a, ix.nOrdering) && a[..ix.nOrdering] == b[..ix.nOrdering]
  }

  /** No two entries anywhere break the constraint. */
  ghost predicate NoDuplicates(ix: Index, entries: seq<Entry>)
    requires ix.Valid() && EntriesOf(ix, entries)
  {
    ix.unique ==> forall i, j :: 0 <= i < j < |entries| ==> !Duplicates(ix, entries[i], entries[j])
  }

  /** What the scan tests of two neighbours. */
  predicate NeighboursOk(ix: Index, prev: Entry, rec: Entry)
    requires ix.Valid() && |prev| == |rec| == ix.nFields
  {
    Cmp(prev, rec) <= 0 && !(ix.unique && !ContainsNull(prev, ix.nOrdering) && Matched(prev, rec) >= ix.nOrdering)
  }

  lemma CmpFieldTransitive(x: Field, y: Field, z: Field)
    ensures CmpField(x, y) <= 0 && CmpField(y, z) <= 0 ==> CmpField(x, z) <= 0
    ensures CmpField(x, y) <= 0 && CmpField(y, z) <= 0 && CmpField(x, z) == 0 ==> x == y == z
    ensures CmpField(x, y) == 0 <==> x == y
  {
  }

  /** The least position at which three entries do not all agree decides their order. */
  lemma CmpTransitive(a: Entry, b: Entry, c: Entry)
    requires |a| == |b| == |c| && Cmp(a, b) <= 0 && Cmp(b, c) <= 0
    ensures Cmp(a, c) <= 0
    ensures Matched(a, c) <= Matched(a, b) && Matched(a, c) <= Matched(b, c)
  {
    hide Matched, CmpField;
    var p, q := Matched(a, b), Matched(b, c);
    var n := if p < q then p else q;
    forall i | 0 <= i < n ensures a[i] == c[i] {
      AgreeBelow(a, b, i);
      AgreeBelow(b, c, i);
    }
    assert a[..n] == c[..n];
    MatchedIsMost(a, c, n);
    if n < |a| {
      CmpFieldTransitive(a[n], b[n], c[n]);
      CmpFieldTransitive(b[n], c[n], c[n]);
      CmpFieldTransitive(a[n], c[n], c[n]);
      if n < p {
        AgreeBelow(a, b, n);
      }
      if n < q {
        AgreeBelow(b, c, n);
      }
      if Matched(a, c) > n {
        AgreeBelow(a, c, n);
      }
    }
  }

  ghost predicate AllNeighboursOk(ix: Index, entries: seq<Entry>)
    requires ix.Valid() && EntriesOf(ix, entries)
  {
    forall i :: 0 <= i < |entries| - 1 ==> NeighboursOk(ix, entries[i], entries[i + 1])
  }

  lemma {:induction false} NeighboursAscend(ix: Index, entries: seq<Entry>, i: nat, j: nat)
    requires ix.Valid() && EntriesOf(ix, entries) && i < j < |entries|
    requires forall k :: i <= k < j ==> Cmp(entries[k], entries[k + 1]) <= 0
    ensures Cmp(entries[i], entries[j]) <= 0
    ensures Matched(entries[i], entries[j]) <= Matched(entries[i], entries[i + 1])
    decreases j
  {
    if j > i + 1 {
      NeighboursAscend(ix, entries, i, j - 1);
      CmpTransitive(entries[i], entries[j - 1], entries[j]);
    }
  }

  lemma PairFromNeighbours(ix: Index, entries: seq<Entry>, i: nat, j: nat)
    requires ix.Valid() && EntriesOf(ix, entries) && i < j < |entries| && AllNeighboursOk(ix, entries)
    ensures Cmp(entries[i], entries[j]) <= 0 && (ix.unique ==> !Duplicates(ix, entries[i], entries[j]))
  {
    hide Matched, Cmp, ContainsNull;
    forall k | i <= k < j ensures Cmp(entries[k], entries[k + 1]) <= 0 {
      assert NeighboursOk(ix, entries[k], entries[k + 1]);
    }
    NeighboursAscend(ix, entries, i, j);
    assert NeighboursOk(ix, entries[i], entries[i + 1]);
    if Duplicates(ix, entries[i], entries[j]) {
      MatchedIsMost(entries[i], entries[j], ix.nOrdering);
    }
  }

  lemma MatchedPrefix(a: Entry, b: Entry, k: nat)
    requires k <= |a| && k <= |b| && Matched(a, b) >= k
    ensures a[..k] == b[..k]
  {
    hide Matched;
    assert a[..k] == a[..Matched(a, b)][..k];
    assert b[..k] == b[..Matched(a, b)][..k];
  }

  lemma NeighbourFromPairs(ix: Index, entries: seq<Entry>, i: nat)
    requires ix.Valid() && EntriesOf(ix, entries) && i + 1 < |entries|
    requires Ascending(ix, entries) && NoDuplicates(ix, entries)
    ensures NeighboursOk(ix, entries[i], entries[i + 1])
  {
    hide Matched, Cmp, ContainsNull;
    if Matched(entries[i], entries[i + 1]) >= ix.nOrdering {
      MatchedPrefix(entries[i], entries[i + 1], ix.nOrdering);
    }
  }

  /** Neighbours are in order and distinct iff all pairs are: equal keys cannot be apart in an ordered scan. */
  lemma LocalIsGlobal(ix: Index, entries: seq<Entry>)
    requires ix.Valid() && EntriesOf(ix, entries)
    ensures AllNeighboursOk(ix, entries) <==> Ascending(ix, entries) && NoDuplicates(ix, entries)
  {
    hide Cmp, Duplicates, NeighboursOk;
    if AllNeighboursOk(ix, entries) {
      forall i, j | 0 <= i < j < |entries|
        ensures Cmp(entries[i], entries[j]) <= 0 && (ix.unique ==> !Duplicates(ix, entries[i], entries[j]))
      {
        PairFromNeighbours(ix, entries, i, j);
      }
    }
    if Ascending(ix, entries) && NoDuplicates(ix, entries) {
      forall i | 0 <= i < |entries| - 1 ensures NeighboursOk(ix, entries[i], entries[i + 1]) {
        NeighbourFromPairs(ix, entries, i);
      }
    }
  }

  /** The loop over the ordering fields. */
  method HasNull(a: Entry, n: nat) returns (containsNull: bool)
    requires n <= |a|
    ensures containsNull <==> ContainsNull(a, n)
  {
    containsNull := false;
    for i := 0 to n
      invariant containsNull <==> exists j :: 0 <= j < i && a[j] == SqlNull
    {
      if a[i] == SqlNull {
        containsNull := true;
      }
    }
  }

  /** row_scan_and_check_index; `entries` are the records the scan meets. */
  method RowScanAndCheckIndex(ix: Index, entries: seq<Entry>) returns (isOk: bool, nRows: nat)
    requires ix.Valid() && EntriesOf(ix, entries)
    ensures isOk <==> Ascending(ix, entries) && NoDuplicates(ix, entries)
    ensures nRows == |entries|
  {
    LocalIsGlobal(ix, entries);
    hide Cmp, Matched, Ascending, NoDuplicates, Duplicates;
    isOk, nRows := true, 0;
    var prev: Option<Entry> := None;
    while nRows < |entries|
      invariant nRows <= |entries|
      invariant prev == if nRows == 0 then None else Some(entries[nRows - 1])
      invariant isOk <==> forall i :: 0 <= i < nRows - 1 ==> NeighboursOk(ix, entries[i], entries[i + 1])
    {
      nRows := nRows + 1;
      var rec := entries[nRows - 1];
      if prev.Some? {
        var matchedFields, cmp := Matched(prev.value, rec), Cmp(prev.value, rec);
        var containsNull := HasNull(prev.value, ix.nOrdering);
        if cmp > 0 {
          isOk := false;
        } else if ix.unique && !containsNull && matchedFields >= ix.nOrdering {
          isOk := false;
        }
        assert NeighboursOk(ix, entries[nRows - 2], entries[nRows - 1]) <==>
               !(cmp > 0 || (ix.unique && !containsNull && matchedFields >= ix.nOrdering));
      }
      prev := Some(rec);
    }
  }
}
