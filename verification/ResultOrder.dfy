/** When the ORDER BY check accepts a plan, running it produces the rows in the requested order. */
module ResultOrder {
  import opened Wrappers
  import opened Query
  import opened Lookup
  import opened AccessPath
  import opened PlanFacts
  import opened Planner
  import opened LexOrder
  import opened Executor
  import opened PlanMeaning

  ghost predicate InDirection(asc: bool, a: int, b: int) {
    if asc then a <= b else b <= a
  }

  lemma ClaimsGiveExact(s: Select, i: nat, p: Plan, cmps: seq<Cmp>, outer: Env, row: Row, F: Functions)
    requires ScanOf(s, i, p, cmps) && ClaimsHold(s, i, outer[s.tables[i].id := row], F)
    ensures MatchesTuple(p.path, Tuple(p.path, outer, F), row)
  {
    ClaimsMeaning(s, i, p, cmps, outer, row, F);
    EndCondsMeaning(s, i, p, cmps, outer, row, F);
  }

  /** A table whose unique fields are all matched exactly yields at most one row. */
  lemma {:induction false} SingleRow(s: Select, i: nat, p: Plan, cmps: seq<Cmp>, outer: Env, rows: seq<Row>, F: Functions)
    requires ScanOf(s, i, p, cmps) && AtMostOneRow(p.path)
    requires p.path.index.nUnique <= p.path.index.NUniqueInTree() <= |p.path.index.fields| && InOrder(p.path, rows)
    ensures |Qualifying(s, i, outer, rows, F)| <= 1
  {
    if rows != [] {
      if ClaimsHold(s, i, outer[s.tables[i].id := rows[0]], F) {
        ClaimsGiveExact(s, i, p, cmps, outer, rows[0], F);
        AtMostOneMatch(s, i, p, cmps, outer, rows, F);
        NoneQualify(s, i, outer, rows[1..], F);
      } else {
        SingleRow(s, i, p, cmps, outer, rows[1..], F);
      }
    }
  }

  lemma {:induction false} QualifyingMembers(s: Select, i: nat, outer: Env, rows: seq<Row>, F: Functions)
    requires i < |s.tables|
    ensures forall r :: r in Qualifying(s, i, outer, rows, F) <==>
              r in rows && ClaimsHold(s, i, outer[s.tables[i].id := r], F)
  {
    if rows != [] {
      QualifyingMembers(s, i, outer, rows[1..], F);
      assert rows == [rows[0]] + rows[1..];
    }
  }

  /** Rows with equal exact fields come in the order of the next field. */
  lemma NextFieldOrdered(p: Path, tuple: seq<int>, a: Row, b: Row)
    requires p.nExactMatch <= |tuple| && p.nExactMatch < p.index.NUniqueInTree() <= |p.index.fields|
    requires MatchesTuple(p, tuple, a) && MatchesTuple(p, tuple, b) && MetBefore(p, a, b)
    ensures InDirection(p.asc, ColValue(a, p.index.fields[p.nExactMatch]), ColValue(b, p.index.fields[p.nExactMatch]))
  {
    var fa, fb := FullKey(p, a), FullKey(p, b);
    assert fa[..p.nExactMatch] == tuple[..p.nExactMatch] == fb[..p.nExactMatch];
    LexNext(fa, fb, p.nExactMatch);
    LexNext(fb, fa, p.nExactMatch);
  }

  ghost predicate RowsOrdered(asc: bool, rows: seq<Row>, col: nat) {
    forall a, b :: 0 <= a < b < |rows| ==> InDirection(asc, ColValue(rows[a], col), ColValue(rows[b], col))
  }

  /** Two qualifying rows of a table whose next field is `col` are met in the order of `col`. */
  lemma QualifyingPair(s: Select, i: nat, p: Plan, cmps: seq<Cmp>, outer: Env, a: Row, b: Row, col: nat, F: Functions)
    requires ScanOf(s, i, p, cmps) && NextFieldIs(p.path, col) && !AtMostOneRow(p.path)
    requires p.path.index.NUniqueInTree() <= |p.path.index.fields| && MetBefore(p.path, a, b)
    requires ClaimsHold(s, i, outer[s.tables[i].id := a], F) && ClaimsHold(s, i, outer[s.tables[i].id := b], F)
    ensures InDirection(p.path.asc, ColValue(a, col), ColValue(b, col))
  {
    hide ClaimsHold, MetBefore, InDirection;
    ScanFacts(s, i, p, cmps);
    ClaimsGiveExact(s, i, p, cmps, outer, a, F);
    ClaimsGiveExact(s, i, p, cmps, outer, b, F);
    NextFieldOrdered(p.path, Tuple(p.path, outer, F), a, b);
  }

  /** The qualifying rows of a table whose next field is `col` come in the order of `col`. */
  lemma {:induction false} QualifyingOrdered(s: Select, i: nat, p: Plan, cmps: seq<Cmp>, outer: Env, rows: seq<Row>,
                                             col: nat, F: Functions)
    requires ScanOf(s, i, p, cmps) && NextFieldIs(p.path, col) && !AtMostOneRow(p.path)
    requires p.path.index.nUnique <= p.path.index.NUniqueInTree() <= |p.path.index.fields| && InOrder(p.path, rows)
    requires i < |s.tables|
    ensures RowsOrdered(p.path.asc, Qualifying(s, i, outer, rows, F), col)
  {
    hide ClaimsHold, InDirection, ScanOf, NextFieldIs, AtMostOneRow, MetBefore, Key;
    if rows != [] {
      QualifyingOrdered(s, i, p, cmps, outer, rows[1..], col, F);
      QualifyingMembers(s, i, outer, rows[1..], F);
      var rest := Qualifying(s, i, outer, rows[1..], F);
      if ClaimsHold(s, i, outer[s.tables[i].id := rows[0]], F) {
        forall b | 0 <= b < |rest| ensures InDirection(p.path.asc, ColValue(rows[0], col), ColValue(rest[b], col)) {
          assert rest[b] in rest;
          var m :| 0 <= m < |rows[1..]| && rows[1..][m] == rest[b];
          assert MetBefore(p.path, rows[0], rows[m + 1]);
          QualifyingPair(s, i, p, cmps, outer, rows[0], rest[b], col, F);
        }
        assert Qualifying(s, i, outer, rows, F) == [rows[0]] + rest;
      } else {
        assert Qualifying(s, i, outer, rows, F) == rest;
      }
    }
  }

  ghost predicate Ordered(asc: bool, out: seq<Env>, table: nat, col: nat) {
    forall a, b :: 0 <= a < b < |out| ==>
      table in out[a] && table in out[b] && InDirection(asc, ColValue(out[a][table], col), ColValue(out[b][table], col))
  }

  lemma {:induction false} LastTable(plans: seq<Plan>, cmps: seq<Cmp>, db: Database, env: Env, rows: seq<Row>, F: Functions)
    requires plans != [] && Runnable(plans)
    ensures var n := |plans| - 1; var out := JoinRows(plans, cmps, db, n, env, rows, F);
      |out| == |rows| && forall a :: 0 <= a < |rows| ==> out[a] == env[plans[n].path.table.id := rows[a]]
  {
    if rows != [] {
      LastTable(plans, cmps, db, env, rows[1..], F);
    }
  }

  /** What a table contributes: at most one row, or rows in the order of the next field. */
  lemma TableOrder(s: Select, plans: seq<Plan>, cmps: seq<Cmp>, db: Database, i: nat, env: Env, col: nat, F: Functions)
    requires Executable(s, plans, cmps, db) && i < |plans|
    ensures plans[i].path.table == s.tables[i] && plans[i].path.asc == s.asc
    ensures AtMostOneRow(plans[i].path) ==> |FetchTable(plans, cmps, db, i, env, F)| <= 1
    ensures NextFieldIs(plans[i].path, col) && !AtMostOneRow(plans[i].path) ==>
              RowsOrdered(s.asc, FetchTable(plans, cmps, db, i, env, F), col)
  {
    var p := plans[i];
    assert ScanOf(s, i, p, cmps);
    ScanFacts(s, i, p, cmps);
    var rows := Travel(p.path.asc, db(i, p.path.index));
    TravelInOrder(p.path, db(i, p.path.index));
    ScanIsFilter(s, i, plans, cmps, db, env, F);
    if AtMostOneRow(p.path) {
      SingleRow(s, i, p, cmps, env, rows, F);
    } else if NextFieldIs(p.path, col) {
      QualifyingOrdered(s, i, p, cmps, env, rows, col, F);
    }
  }

  lemma AtMostOneJoin(plans: seq<Plan>, cmps: seq<Cmp>, db: Database, i: nat, env: Env, rows: seq<Row>, F: Functions)
    requires i < |plans| && Runnable(plans) && |rows| <= 1
    ensures JoinRows(plans, cmps, db, i, env, rows, F)
            == if rows == [] then [] else Join(plans, cmps, db, i + 1, env[plans[i].path.table.id := rows[0]], F)
  {
    if rows != [] {
      assert rows[1..] == [];
    }
  }

  lemma LastTableOrdered(plans: seq<Plan>, cmps: seq<Cmp>, db: Database, env: Env, rows: seq<Row>, asc: bool, col: nat, F: Functions)
    requires plans != [] && Runnable(plans) && (|rows| <= 1 || RowsOrdered(asc, rows, col))
    ensures Ordered(asc, JoinRows(plans, cmps, db, |plans| - 1, env, rows, F), plans[|plans| - 1].path.table.id, col)
  {
    LastTable(plans, cmps, db, env, rows, F);
  }

  ghost predicate SortedTable(plans: seq<Plan>, cmps: seq<Cmp>, db: Database, asc: bool, col: nat, F: Functions, i: nat,
                              env: Env)
    requires i < |plans| && Runnable(plans)
  {
    |FetchTable(plans, cmps, db, i, env, F)| <= 1
    || (i + 1 == |plans| && RowsOrdered(asc, FetchTable(plans, cmps, db, i, env, F), col))
  }

  /** Whatever rows are chosen before it, every table but the last yields at most one row, and the last one
      yields rows in the order of `col`. */
  ghost predicate SortedTables(plans: seq<Plan>, cmps: seq<Cmp>, db: Database, asc: bool, col: nat, F: Functions)
    requires Runnable(plans)
  {
    forall i, env: Env :: 0 <= i < |plans| ==> SortedTable(plans, cmps, db, asc, col, F, i, env)
  }

  lemma {:induction false} JoinOrdered(plans: seq<Plan>, cmps: seq<Cmp>, db: Database, asc: bool, col: nat, i: nat, env: Env,
                                       F: Functions)
    requires Runnable(plans) && i < |plans| && SortedTables(plans, cmps, db, asc, col, F)
    ensures Ordered(asc, Join(plans, cmps, db, i, env, F), plans[|plans| - 1].path.table.id, col)
    decreases |plans| - i
  {
    var found := FetchTable(plans, cmps, db, i, env, F);
    assert SortedTable(plans, cmps, db, asc, col, F, i, env);
    if i + 1 == |plans| {
      LastTableOrdered(plans, cmps, db, env, found, asc, col, F);
    } else {
      AtMostOneJoin(plans, cmps, db, i, env, found, F);
      if found != [] {
        JoinOrdered(plans, cmps, db, asc, col, i + 1, env[plans[i].path.table.id := found[0]], F);
      }
    }
  }

  /** If the ORDER BY check accepts, the result comes in the order of the ORDER BY column. */
  lemma OrderByIsHonoured(s: Select, plans: seq<Plan>, cmps: seq<Cmp>, db: Database, order: OrderBy, F: Functions)
    requires s.Valid() && PlannedUpTo(s, |s.tables|, plans, cmps) && ValidDatabase(s, db)
    requires s.asc == order.asc && OrderByOk(Some(order), s.tables, plans)
    ensures Runnable(plans)
    ensures Ordered(order.asc, Join(plans, cmps, db, 0, map[], F), order.table, order.col)
  {
    PlannedIsExecutable(s, plans, cmps, db);
    forall i, env: Env | 0 <= i < |plans| ensures SortedTable(plans, cmps, db, s.asc, order.col, F, i, env) {
      TableOrder(s, plans, cmps, db, i, env, order.col, F);
    }
    JoinOrdered(plans, cmps, db, s.asc, order.col, 0, map[], F);
  }

  /** row_sel_open_pcur evaluates the right sides of the end conditions only: every exactly matched tuple
      field is one of them. */
  lemma TupleIsEvaluated(s: Select, i: nat, p: Plan, cmps: seq<Cmp>, j: nat) returns (k: nat)
    requires ScanOf(s, i, p, cmps) && j < p.path.nExactMatch
    ensures j < |p.path.tupleExps| && k in p.endConds && k < |cmps|
    ensures cmps[k].right == p.path.tupleExps[j]
  {
    ScanFacts(s, i, p, cmps);
    k := ExactSource(s, i, p.path, j);
  }
}
