/** What the ORDER BY check decides: it accepts a plan exactly when the indexes guarantee the order. */
module OrderByCheck {
  import opened Wrappers
  import opened Query
  import opened Lookup
  import opened AccessPath
  import opened PlanFacts
  import opened Planner
  import opened LexOrder
  import opened Executor
  import opened ResultOrder

  /** Rows of an index in index order that all have the given values in its first fields. */
  ghost predicate Matching(rows: seq<Row>, ix: Index, prefix: seq<int>)
    requires ix.nUnique <= |ix.fields| && |prefix| <= |ix.fields|
  {
    IndexOrdered(rows, ix) && forall a :: 0 <= a < |rows| ==> Key(rows[a], ix, |prefix|) == prefix
  }

  /** Whatever rows the index holds, at most one of them matches. */
  ghost predicate OneMatch(ix: Index, prefix: seq<int>)
    requires ix.nUnique <= |ix.fields| && |prefix| <= |ix.fields|
  {
    forall rows: seq<Row> :: Matching(rows, ix, prefix) ==> |rows| <= 1
  }

  /** Whatever rows the index holds, a cursor meets those that match in the order of the column. */
  ghost predicate MatchesInOrder(ix: Index, prefix: seq<int>, asc: bool, col: nat)
    requires ix.nUnique <= |ix.fields| && |prefix| <= |ix.fields|
  {
    forall rows: seq<Row> :: Matching(rows, ix, prefix) ==> RowsOrdered(asc, Travel(asc, rows), col)
  }

  // ----- rows that show what an index does not guarantee

  function Width(fields: seq<nat>, col: nat): (w: nat)
    ensures w > col && forall j :: 0 <= j < |fields| ==> fields[j] < w
  {
    if fields == [] then col + 1
    else
      var rest := Width(fields[1..], col);
      if fields[0] < rest then rest else fields[0] + 1
  }

  /** The row with the given values in the first fields of the index. */
  function WithFields(row: Row, fields: seq<nat>, values: seq<int>): (r: Row)
    requires |values| <= |fields| && forall j :: 0 <= j < |fields| ==> fields[j] < |row|
    ensures |r| == |row|
  {
    if values == [] then row
    else
      var n := |values| - 1;
      WithFields(row, fields, values[..n])[fields[n] := values[n]]
  }

  lemma {:induction false} WithFieldsIs(row: Row, fields: seq<nat>, values: seq<int>)
    requires |values| <= |fields| && forall j :: 0 <= j < |fields| ==> fields[j] < |row|
    requires forall i, j :: 0 <= i < j < |fields| ==> fields[i] != fields[j]
    ensures var r := WithFields(row, fields, values);
      && (forall j :: 0 <= j < |values| ==> r[fields[j]] == values[j])
      && (forall c :: 0 <= c < |row| && c !in fields[..|values|] ==> r[c] == row[c])
  {
    if values != [] {
      var n := |values| - 1;
      WithFieldsIs(row, fields, values[..n]);
      assert fields[..n + 1] == fields[..n] + [fields[n]];
      forall j | 0 <= j < n ensures WithFields(row, fields, values[..n])[fields[j]] == values[j] && fields[j] != fields[n] {
        assert values[..n][j] == values[j];
      }
    }
  }

  /** A row with the given first fields, then `next` in the following field and `other` in column `col`. */
  function Witness(ix: Index, prefix: seq<int>, next: int, col: nat, other: int): (r: Row)
    requires |prefix| < |ix.fields|
  {
    var w := Width(ix.fields, col);
    WithFields(seq(w, _ => 0)[col := other], ix.fields, prefix + [next])
  }

  lemma WitnessIs(ix: Index, prefix: seq<int>, next: int, col: nat, other: int)
    requires |prefix| < |ix.fields|
    requires forall i, j :: 0 <= i < j < |ix.fields| ==> ix.fields[i] != ix.fields[j]
    ensures var r := Witness(ix, prefix, next, col, other);
      && Key(r, ix, |prefix|) == prefix && ColValue(r, ix.fields[|prefix|]) == next
      && (col !in ix.fields[..|prefix| + 1] ==> ColValue(r, col) == other)
  {
    var w, n := Width(ix.fields, col), |prefix|;
    WithFieldsIs(seq(w, _ => 0)[col := other], ix.fields, prefix + [next]);
    assert (prefix + [next])[n] == next;
    var r := Witness(ix, prefix, next, col, other);
    forall j | 0 <= j < n ensures Key(r, ix, n)[j] == prefix[j] {
      assert (prefix + [next])[j] == prefix[j];
    }
  }

  /** Two rows that agree on the first fields and not on the next one are in index order. */
  lemma TwoInOrder(ix: Index, a: Row, b: Row, n: nat)
    requires n < ix.nUnique <= ix.NUniqueInTree() <= |ix.fields| && Key(a, ix, n) == Key(b, ix, n)
    requires ColValue(a, ix.fields[n]) < ColValue(b, ix.fields[n])
    ensures Matching([a, b], ix, Key(a, ix, n))
  {
    var m := ix.NUniqueInTree();
    assert Key(a, ix, m)[..n] == Key(a, ix, n) && Key(b, ix, m)[..n] == Key(b, ix, n);
    LexNext(Key(a, ix, m), Key(b, ix, m), n);
    assert Key(a, ix, ix.nUnique)[n] != Key(b, ix, ix.nUnique)[n];
  }

  // ----- what an index guarantees

  ghost predicate GoodIndex(ix: Index) {
    && 1 <= ix.nUnique <= |ix.fields|
    && forall i, j :: 0 <= i < j < |ix.fields| ==> ix.fields[i] != ix.fields[j]
  }

  lemma SameUnique(ix: Index, n: nat, a: Row, b: Row)
    requires ix.nUnique <= n <= |ix.fields| && Key(a, ix, n) == Key(b, ix, n)
    ensures Key(a, ix, ix.nUnique) == Key(b, ix, ix.nUnique)
  {
    assert Key(a, ix, ix.nUnique) == Key(a, ix, n)[..ix.nUnique];
    assert Key(b, ix, ix.nUnique) == Key(b, ix, n)[..ix.nUnique];
  }

  lemma DistinctUnique(ix: Index, rows: seq<Row>)
    requires ix.nUnique <= |ix.fields| && IndexOrdered(rows, ix) && |rows| > 1
    ensures Key(rows[0], ix, ix.nUnique) != Key(rows[1], ix, ix.nUnique)
  {
  }

  lemma UniqueGivesOne(ix: Index, prefix: seq<int>, rows: seq<Row>)
    requires GoodIndex(ix) && ix.nUnique <= |prefix| <= |ix.fields| && Matching(rows, ix, prefix)
    ensures |rows| <= 1
  {
    hide IndexOrdered, Key;
    if |rows| > 1 {
      SameUnique(ix, |prefix|, rows[0], rows[1]);
      DistinctUnique(ix, rows);
    }
  }

  /** For any values of the exactly matched fields: at most one row matches iff all unique fields are among them. */
  lemma OneMatchIff(ix: Index, prefix: seq<int>)
    requires GoodIndex(ix) && |prefix| <= |ix.fields|
    ensures OneMatch(ix, prefix) <==> ix.nUnique <= |prefix|
  {
    if ix.nUnique <= |prefix| {
      forall rows: seq<Row> | Matching(rows, ix, prefix) ensures |rows| <= 1 {
        UniqueGivesOne(ix, prefix, rows);
      }
    } else {
      var a, b := Witness(ix, prefix, 0, 0, 0), Witness(ix, prefix, 1, 0, 0);
      WitnessIs(ix, prefix, 0, 0, 0);
      WitnessIs(ix, prefix, 1, 0, 0);
      TwoInOrder(ix, a, b, |prefix|);
      assert |[a, b]| == 2;
    }
  }

  /** Matching rows in index order ascend in the next field. */
  lemma NextAscends(ix: Index, prefix: seq<int>, rows: seq<Row>, a: nat, b: nat)
    requires GoodIndex(ix) && |prefix| < ix.nUnique && Matching(rows, ix, prefix) && a < b < |rows|
    ensures ColValue(rows[a], ix.fields[|prefix|]) <= ColValue(rows[b], ix.fields[|prefix|])
  {
    var m, n := ix.NUniqueInTree(), |prefix|;
    assert Key(rows[a], ix, m)[..n] == Key(rows[a], ix, n) == Key(rows[b], ix, n) == Key(rows[b], ix, m)[..n];
    LexNext(Key(rows[a], ix, m), Key(rows[b], ix, m), n);
  }

  lemma ExactEqual(ix: Index, prefix: seq<int>, rows: seq<Row>, a: nat, b: nat, col: nat)
    requires ix.nUnique <= |ix.fields| && |prefix| <= |ix.fields| && Matching(rows, ix, prefix)
    requires a < |rows| && b < |rows| && col in ix.fields[..|prefix|]
    ensures ColValue(rows[a], col) == ColValue(rows[b], col)
  {
    var j :| 0 <= j < |prefix| && ix.fields[j] == col;
    assert Key(rows[a], ix, |prefix|)[j] == Key(rows[b], ix, |prefix|)[j];
  }

  /** A condition under which matching rows come in the order of the column. */
  predicate Ordering(ix: Index, n: nat, col: nat)
    requires n <= |ix.fields|
  {
    ix.nUnique <= n || (n < |ix.fields| && ix.fields[n] == col) || col in ix.fields[..n]
  }

  lemma MatchingPair(ix: Index, prefix: seq<int>, col: nat, rows: seq<Row>, a: nat, b: nat)
    requires GoodIndex(ix) && |prefix| <= |ix.fields| && Matching(rows, ix, prefix) && Ordering(ix, |prefix|, col)
    requires a < b < |rows|
    ensures ColValue(rows[a], col) <= ColValue(rows[b], col)
  {
    if ix.nUnique <= |prefix| {
      UniqueGivesOne(ix, prefix, rows);
    } else if col in ix.fields[..|prefix|] {
      ExactEqual(ix, prefix, rows, a, b, col);
    } else {
      NextAscends(ix, prefix, rows, a, b);
    }
  }

  lemma MatchingOrdered(ix: Index, prefix: seq<int>, asc: bool, col: nat, rows: seq<Row>)
    requires GoodIndex(ix) && |prefix| <= |ix.fields| && Matching(rows, ix, prefix) && Ordering(ix, |prefix|, col)
    ensures RowsOrdered(asc, Travel(asc, rows), col)
  {
    hide Matching, GoodIndex, Ordering;
    var met, n := Travel(asc, rows), |rows|;
    forall a, b | 0 <= a < b < n ensures InDirection(asc, ColValue(met[a], col), ColValue(met[b], col)) {
      if asc {
        MatchingPair(ix, prefix, col, rows, a, b);
      } else {
        MatchingPair(ix, prefix, col, rows, n - 1 - b, n - 1 - a);
      }
    }
  }

  /** Two matching rows that are met out of order. */
  lemma OutOfOrder(ix: Index, prefix: seq<int>, asc: bool, col: nat) returns (rows: seq<Row>)
    requires GoodIndex(ix) && |prefix| < ix.nUnique && col !in ix.fields[..|prefix| + 1]
    ensures Matching(rows, ix, prefix) && |rows| == 2 && !RowsOrdered(asc, Travel(asc, rows), col)
  {
    var a, b := Witness(ix, prefix, 0, col, 1), Witness(ix, prefix, 1, col, 0);
    WitnessIs(ix, prefix, 0, col, 1);
    WitnessIs(ix, prefix, 1, col, 0);
    TwoInOrder(ix, a, b, |prefix|);
    rows := [a, b];
    var met := Travel(asc, rows);
    assert !InDirection(asc, ColValue(met[0], col), ColValue(met[1], col));
  }

  /** For any values of the exactly matched fields: the matching rows are met in the order of the column iff there is
      at most one, the next field is the column, or the column is one of the matched fields. */
  lemma MatchesInOrderIff(ix: Index, prefix: seq<int>, asc: bool, col: nat)
    requires GoodIndex(ix) && |prefix| <= |ix.fields|
    ensures MatchesInOrder(ix, prefix, asc, col) <==> Ordering(ix, |prefix|, col)
  {
    if Ordering(ix, |prefix|, col) {
      forall rows: seq<Row> | Matching(rows, ix, prefix) ensures RowsOrdered(asc, Travel(asc, rows), col) {
        MatchingOrdered(ix, prefix, asc, col, rows);
      }
    } else {
      var n := |prefix|;
      assert ix.fields[..n + 1] == ix.fields[..n] + [ix.fields[n]];
      var rows := OutOfOrder(ix, prefix, asc, col);
    }
  }

  // ----- the check

  ghost predicate GoodPlans(tables: seq<Table>, plans: seq<Plan>) {
    |plans| == |tables| && forall i :: 0 <= i < |plans| ==>
      GoodIndex(plans[i].path.index) && plans[i].path.nExactMatch <= |plans[i].path.index.fields|
  }

  /** The matched fields are known only when the scan starts: what holds must hold for all their values. */
  ghost predicate AlwaysOne(p: Path)
    requires GoodIndex(p.index) && p.nExactMatch <= |p.index.fields|
  {
    forall prefix: seq<int> :: |prefix| == p.nExactMatch ==> OneMatch(p.index, prefix)
  }

  ghost predicate AlwaysInOrder(p: Path, asc: bool, col: nat)
    requires GoodIndex(p.index) && p.nExactMatch <= |p.index.fields|
  {
    forall prefix: seq<int> :: |prefix| == p.nExactMatch ==> MatchesInOrder(p.index, prefix, asc, col)
  }

  lemma AlwaysOneIff(p: Path)
    requires GoodIndex(p.index) && p.nExactMatch <= |p.index.fields|
    ensures AlwaysOne(p) <==> AtMostOneRow(p)
  {
    forall prefix: seq<int> | |prefix| == p.nExactMatch ensures OneMatch(p.index, prefix) <==> AtMostOneRow(p) {
      OneMatchIff(p.index, prefix);
    }
    assert |seq(p.nExactMatch, _ => 0)| == p.nExactMatch;
  }

  lemma AlwaysInOrderIff(p: Path, asc: bool, col: nat)
    requires GoodIndex(p.index) && p.nExactMatch <= |p.index.fields|
    ensures AlwaysInOrder(p, asc, col) <==>
              AtMostOneRow(p) || NextFieldIs(p, col) || col in p.index.fields[..p.nExactMatch]
  {
    var n, fields := p.nExactMatch, p.index.fields;
    forall prefix: seq<int> | |prefix| == n
      ensures MatchesInOrder(p.index, prefix, asc, col) <==> AtMostOneRow(p) || NextFieldIs(p, col) || col in fields[..n]
    {
      MatchesInOrderIff(p.index, prefix, asc, col);
    }
    assert |seq(n, _ => 0)| == n;
  }

  lemma NotBefore(fields: seq<nat>, n: nat)
    requires n < |fields| && forall i, j :: 0 <= i < j < |fields| ==> fields[i] != fields[j]
    ensures fields[n] !in fields[..n]
  {
  }

  /** The check accepts iff the indexes guarantee one row for every table but the last and, for the last one, which must
      be that of the column, rows in the order of the column; except that it refuses a column which is itself matched
      exactly while more than one row may match. */
  lemma AcceptsIffGuaranteed(order: OrderBy, tables: seq<Table>, plans: seq<Plan>)
    requires tables != [] && GoodPlans(tables, plans)
    ensures var p := plans[|plans| - 1].path;
      OrderByOk(Some(order), tables, plans) <==>
        && (forall i :: 0 <= i < |plans| - 1 ==> AlwaysOne(plans[i].path))
        && p.table.id == order.table
        && AlwaysInOrder(p, order.asc, order.col)
        && (order.col in p.index.fields[..p.nExactMatch] ==> AlwaysOne(p))
  {
    hide AlwaysOne, AlwaysInOrder;
    forall i | 0 <= i < |plans| ensures AlwaysOne(plans[i].path) <==> AtMostOneRow(plans[i].path) {
      AlwaysOneIff(plans[i].path);
    }
    var p := plans[|plans| - 1].path;
    AlwaysInOrderIff(p, order.asc, order.col);
    if NextFieldIs(p, order.col) {
      NotBefore(p.index.fields, p.nExactMatch);
    }
  }

  lemma PlannedIsGood(s: Select, plans: seq<Plan>, cmps: seq<Cmp>)
    requires s.Valid() && PlannedUpTo(s, |s.tables|, plans, cmps)
    ensures GoodPlans(s.tables, plans)
  {
    hide CmpDeterminedBefore, CondsNormalized, Classify;
    forall i | 0 <= i < |plans|
      ensures GoodIndex(plans[i].path.index) && plans[i].path.nExactMatch <= |plans[i].path.index.fields|
    {
      assert IsPlan(s, i, plans[i]);
      BestIsIndex(s, i, plans[i].path.index);
      PlannedFacts(s, i, plans[i].path);
    }
  }

  /** What the check decides about the plans the optimizer makes. */
  lemma CheckDecides(s: Select, plans: seq<Plan>, cmps: seq<Cmp>, order: OrderBy)
    requires s.Valid() && PlannedUpTo(s, |s.tables|, plans, cmps)
    ensures GoodPlans(s.tables, plans)
    ensures var p := plans[|plans| - 1].path;
      OrderByOk(Some(order), s.tables, plans) <==>
        && (forall i :: 0 <= i < |plans| - 1 ==> AlwaysOne(plans[i].path))
        && p.table.id == order.table
        && AlwaysInOrder(p, order.asc, order.col)
        && (order.col in p.index.fields[..p.nExactMatch] ==> AlwaysOne(p))
  {
    hide PlannedUpTo, AlwaysOne, AlwaysInOrder, OrderByOk;
    PlannedIsGood(s, plans, cmps);
    AcceptsIffGuaranteed(order, s.tables, plans);
  }

  /** A scan whose next field is the ORDER BY column is accepted. */
  lemma NextFieldAccepted(order: OrderBy, tables: seq<Table>, plans: seq<Plan>)
    requires tables != [] && |plans| == |tables| && plans[|plans| - 1].path.table.id == order.table
    requires forall i :: 0 <= i < |plans| - 1 ==> plans[i].path.index.nUnique <= plans[i].path.nExactMatch
    requires var p := plans[|plans| - 1].path;
      p.nExactMatch < |p.index.fields| && p.index.fields[p.nExactMatch] == order.col
    ensures OrderByOk(Some(order), tables, plans)
  {
  }

  // ----- a refused query: select * from t where t.a = 5 order by t.a, with the unique fields a and b

  const KEY := Index([0, 1, 2], 2, true)
  const TABLE := Table(0, 2, [KEY])
  const QUERY := Select([TABLE], Leaf(0), [Cmp(Eq, Column(1, 0, 0), Value(2, 5))], true)
  const PLAN := Plan(Path(TABLE, KEY, true, [Value(2, 5)], 1, CurGE, false), [0], [], [], false)

  lemma QueryIsValid()
    ensures QUERY.Valid()
  {
    assert QUERY.tables[0].id == 0 && Resolved(QUERY.cmps[0].left, QUERY.tables);
  }

  lemma PlanIsMade()
    ensures IsPlan(QUERY, 0, PLAN)
  {
    assert QUERY.tables[0].id == 0;
    assert LookCol(Equal, QUERY, 0, KEY, 0) == Some((Value(2, 5), Eq));
    assert ExactRun(QUERY, 0, KEY, 1) == 0;
    assert NExact(QUERY, 0, KEY) == 1 && RangeAt(QUERY, 0, KEY).None?;
    assert TupleExps(QUERY, 0, KEY) == [Value(2, 5)];
    assert BestAt(QUERY, 0, KEY, 0);
    assert IsArg(PLAN.path.tupleExps[0], QUERY.cmps[0]);
    assert Classify(QUERY, 0, PLAN.path, QUERY.cmps[0]) == EndCond;
    assert Leaves(QUERY.cond) == [0];
    assert OfClass(QUERY, 0, PLAN.path, QUERY.cmps, [], EndCond) == [];
    assert OfClass(QUERY, 0, PLAN.path, QUERY.cmps, [], TestCond) == [];
    assert [0][1..] == [];
    assert OfClass(QUERY, 0, PLAN.path, QUERY.cmps, [0], EndCond) == [0];
    assert OfClass(QUERY, 0, PLAN.path, QUERY.cmps, [0], TestCond) == [];
  }

  /** The optimizer makes the plan, every result is in the requested order, and the check refuses. */
  lemma MatchedColumnRefused()
    ensures QUERY.Valid() && PlannedUpTo(QUERY, 1, [PLAN], QUERY.cmps) && GoodPlans(QUERY.tables, [PLAN])
    ensures AlwaysInOrder([PLAN][0].path, true, 0) && !OrderByOk(Some(OrderBy(0, 0, true)), QUERY.tables, [PLAN])
  {
    hide IsPlan, QUERY.Valid, AlwaysInOrder;
    QueryIsValid();
    PlanIsMade();
    assert PlannedUpTo(QUERY, 1, [PLAN], QUERY.cmps) by {
      assert Normalized(QUERY.cmps[0], 0) == QUERY.cmps[0];
    }
    PlannedIsGood(QUERY, [PLAN], QUERY.cmps);
    AlwaysInOrderIff(PLAN.path, true, 0);
    assert KEY.fields[..1] == [0];
  }
}
