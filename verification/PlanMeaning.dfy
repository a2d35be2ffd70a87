/** The plan preserves the meaning of the query. */
module PlanMeaning {
  import opened Wrappers
  import opened Query
  import opened Lookup
  import opened AccessPath
  import opened PlanFacts
  import opened Planner
  import opened LexOrder
  import opened Executor

  /** The i-th table claims the conjuncts that become determined when its row is known. */
  predicate Claims(s: Select, i: nat, c: Cmp)
    requires i < |s.tables|
  {
    CmpDeterminedBefore(c, s.tables, i + 1) && (i == 0 || !CmpDeterminedBefore(c, s.tables, i))
  }

  ghost predicate ClaimsHold(s: Select, i: nat, env: Env, F: Functions)
    requires i < |s.tables|
  {
    forall k :: k in Leaves(s.cond) && k < |s.cmps| && Claims(s, i, s.cmps[k]) ==> CmpHolds(s.cmps[k], env, F)
  }

  /** Every conjunct is claimed by exactly one table of the join. */
  lemma ClaimedOnce(s: Select, k: nat) returns (i: nat)
    requires s.Valid() && k < |s.cmps|
    ensures i < |s.tables| && Claims(s, i, s.cmps[k])
    ensures forall j :: 0 <= j < |s.tables| && Claims(s, j, s.cmps[k]) ==> j == i
  {
    var c := s.cmps[k];
    ResolvedIsDetermined(c.left, s.tables);
    ResolvedIsDetermined(c.right, s.tables);
    i := 0;
    while !CmpDeterminedBefore(c, s.tables, i + 1)
      invariant i < |s.tables|
      invariant i == 0 || !CmpDeterminedBefore(c, s.tables, i)
      decreases |s.tables| - i
    {
      i := i + 1;
    }
    forall j | 0 <= j < |s.tables| && Claims(s, j, c) ensures j == i {
      if j < i {
        CmpDeterminedMonotone(c, s.tables, j + 1, i);
      } else if i < j {
        CmpDeterminedMonotone(c, s.tables, i + 1, j);
      }
    }
  }

  /** One table's scan, seen from the rows already chosen for the earlier tables. `cmps` are the comparisons
      as the optimizer left them. */
  ghost predicate ScanOf(s: Select, i: nat, p: Plan, cmps: seq<Cmp>) {
    && s.Valid() && IsPlan(s, i, p)
    && |cmps| == |s.cmps|
    && (forall k :: 0 <= k < |cmps| ==> cmps[k] == s.cmps[k] || cmps[k] == Swap(s.cmps[k]))
    && forall k :: k in p.endConds ==> k < |cmps| && cmps[k] == Normalized(s.cmps[k], s.tables[i].id)
  }

  lemma ScanFacts(s: Select, i: nat, p: Plan, cmps: seq<Cmp>)
    requires ScanOf(s, i, p, cmps)
    ensures Planned(s, i, p.path)
    ensures p.path.nExactMatch <= |p.path.tupleExps| <= p.path.nExactMatch + 1
    ensures p.path.nExactMatch <= p.path.index.NUniqueInTree() <= |p.path.index.fields|
    ensures |p.path.tupleExps| <= p.path.index.NUniqueInTree()
    ensures |p.path.tupleExps| > p.path.nExactMatch <==> LastOp(s, i, p.path.index) != Eq
    ensures p.path.index.Valid(s.tables[i].nUserCols)
    ensures forall j :: 0 <= j < i ==> s.tables[j].id != s.tables[i].id
    ensures forall k :: k in p.endConds <==>
              k in Leaves(s.cond) && k < |s.cmps| && Classify(s, i, p.path, s.cmps[k]) == EndCond
    ensures forall k :: k in p.otherConds <==>
              k in Leaves(s.cond) && k < |s.cmps| && Classify(s, i, p.path, s.cmps[k]) == TestCond
  {
    BestIsIndex(s, i, p.path.index);
    PlannedFacts(s, i, p.path);
    LastOpUsable(s, i, p.path.index);
    LeavesBelow(s.cond, |s.cmps|);
    assert forall k :: k in Leaves(s.cond) ==> k < |s.cmps|;
    OfClassMembers(s, i, p.path, s.cmps, Leaves(s.cond), EndCond);
    OfClassMembers(s, i, p.path, s.cmps, Leaves(s.cond), TestCond);
  }

  /** A normalized end condition, tested the way row_sel_test_end_conds does, says what the conjunct says. */
  lemma EndCondTest(s: Select, i: nat, p: Plan, cmps: seq<Cmp>, k: nat, outer: Env, row: Row, F: Functions)
    requires ScanOf(s, i, p, cmps) && k in p.endConds
    ensures k < |cmps|
    ensures var env := outer[s.tables[i].id := row];
      Compare(cmps[k].op, Eval(cmps[k].left, env, F), Eval(cmps[k].right, outer, F)) <==> CmpHolds(s.cmps[k], env, F)
  {
    ScanFacts(s, i, p, cmps);
    var env := outer[s.tables[i].id := row];
    NormalizedEndCond(s, i, p.path, k, cmps[k]);
    assert Agree(s.tables, i, env, outer);
    DeterminedValue(cmps[k].right, s.tables, i, env, outer, F);
    SwapKeepsMeaning(s.cmps[k], env, F);
  }

  lemma EndCondsTest(s: Select, i: nat, p: Plan, cmps: seq<Cmp>, outer: Env, row: Row, F: Functions)
    requires ScanOf(s, i, p, cmps)
    ensures EndCondsHold(p, cmps, outer, outer[s.tables[i].id := row], F) <==>
            forall k :: k in p.endConds && k < |s.cmps| ==> CmpHolds(s.cmps[k], outer[s.tables[i].id := row], F)
  {
    forall k | k in p.endConds
      ensures k < |cmps|
      ensures Compare(cmps[k].op, Eval(cmps[k].left, outer[s.tables[i].id := row], F), Eval(cmps[k].right, outer, F))
              <==> CmpHolds(s.cmps[k], outer[s.tables[i].id := row], F)
    {
      EndCondTest(s, i, p, cmps, k, outer, row, F);
    }
  }

  /** What a looked-up comparison says about a row of the table. */
  lemma LookedUpMeaning(s: Select, i: nat, ct: CmpType, col: nat, k: nat, outer: Env, row: Row, F: Functions)
    requires s.Valid() && i < |s.tables| && k < |s.cmps|
    requires LookInComparison(ct, col, s.cmps[k], s.tables, i).Some?
    ensures var (e, op) := LookInComparison(ct, col, s.cmps[k], s.tables, i).value;
      CmpHolds(s.cmps[k], outer[s.tables[i].id := row], F) <==> Compare(op, ColValue(row, col), Eval(e, outer, F))
  {
    var env := outer[s.tables[i].id := row];
    ComparisonMeaning(ct, col, s.cmps[k], s.tables, i, env, F);
    var e := LookInComparison(ct, col, s.cmps[k], s.tables, i).value.0;
    assert Agree(s.tables, i, env, outer);
    DeterminedValue(e, s.tables, i, env, outer, F);
  }

  /** All end conditions hold iff the matched fields have the tuple's values and no far limit is crossed. */
  lemma EndCondsMeaning(s: Select, i: nat, p: Plan, cmps: seq<Cmp>, outer: Env, row: Row, F: Functions)
    requires ScanOf(s, i, p, cmps)
    ensures EndCondsHold(p, cmps, outer, outer[s.tables[i].id := row], F) <==>
            MatchesTuple(p.path, Tuple(p.path, outer, F), row) &&
            forall k :: k in p.endConds && k < |s.cmps| && LimitsFarEnd(s, i, p.path, s.cmps[k]) ==>
              CmpHolds(s.cmps[k], outer[s.tables[i].id := row], F)
  {
    ScanFacts(s, i, p, cmps);
    EndCondsTest(s, i, p, cmps, outer, row, F);
    var tuple, env := Tuple(p.path, outer, F), outer[s.tables[i].id := row];
    if EndCondsHold(p, cmps, outer, env, F) {
      forall j | 0 <= j < p.path.nExactMatch ensures ColValue(row, p.path.index.fields[j]) == tuple[j] {
        var k := ExactSource(s, i, p.path, j);
        LookedUpMeaning(s, i, Equal, p.path.index.fields[j], k, outer, row, F);
      }
    }
    if MatchesTuple(p.path, tuple, row) {
      forall k | k in p.endConds && !LimitsFarEnd(s, i, p.path, s.cmps[k]) ensures CmpHolds(s.cmps[k], env, F) {
        EndCondMeaning(s, i, p.path, k);
        var j :| 0 <= j < p.path.nExactMatch && LookInComparison(Equal, p.path.index.fields[j], s.cmps[k], s.tables, i)
                                                == Some((p.path.tupleExps[j], Eq));
        LookedUpMeaning(s, i, Equal, p.path.index.fields[j], k, outer, row, F);
      }
    }
  }

  /** The limit the cursor was positioned with, as a statement about a row. */
  ghost predicate InRange(s: Select, i: nat, p: Path, tuple: seq<int>, row: Row)
    requires i < |s.tables| && CanRank(s, i, p.index) && |tuple| == |p.tupleExps|
  {
    |tuple| > p.nExactMatch && p.nExactMatch < |p.index.fields| ==>
      Compare(LastOp(s, i, p.index), ColValue(row, p.index.fields[p.nExactMatch]), tuple[p.nExactMatch])
  }

  /** A row satisfies the conjuncts the table claims iff it passes the end conditions, the other conditions
      and the limit of the search tuple: conjuncts that are not tested are implied. */
  lemma ClaimsMeaning(s: Select, i: nat, p: Plan, cmps: seq<Cmp>, outer: Env, row: Row, F: Functions)
    requires ScanOf(s, i, p, cmps)
    ensures CanRank(s, i, p.path.index)
    ensures var env := outer[s.tables[i].id := row];
      ClaimsHold(s, i, env, F) <==>
      EndCondsHold(p, cmps, outer, env, F) && OtherCondsHold(p, cmps, env, F)
      && InRange(s, i, p.path, Tuple(p.path, outer, F), row)
  {
    ScanFacts(s, i, p, cmps);
    EndCondsTest(s, i, p, cmps, outer, row, F);
    var tuple, env := Tuple(p.path, outer, F), outer[s.tables[i].id := row];
    forall k | 0 <= k < |cmps| ensures CmpHolds(cmps[k], env, F) <==> CmpHolds(s.cmps[k], env, F) {
      SwapKeepsMeaning(s.cmps[k], env, F);
    }
    forall k | k in Leaves(s.cond) && k < |s.cmps| && Classify(s, i, p.path, s.cmps[k]) == ScrollCond
      ensures CmpHolds(s.cmps[k], env, F) <==> InRange(s, i, p.path, tuple, row)
    {
      ScrollCondMeaning(s, i, p.path, k);
      LookedUpMeaning(s, i, Comparison, p.path.index.fields[p.path.nExactMatch], k, outer, row, F);
    }
    if ClaimsHold(s, i, env, F) && |tuple| > p.path.nExactMatch {
      var k := RangeSource(s, i, p.path);
      LookedUpMeaning(s, i, Comparison, p.path.index.fields[p.path.nExactMatch], k, outer, row, F);
    }
    forall k | k in Leaves(s.cond) && k < |s.cmps|
      ensures Claims(s, i, s.cmps[k]) <==> Classify(s, i, p.path, s.cmps[k]) != NotCond
    {
    }
  }

  // ----- geometry of the scan

  ghost function FullKey(p: Path, row: Row): seq<int>
    requires p.index.NUniqueInTree() <= |p.index.fields|
  {
    Key(row, p.index, p.index.NUniqueInTree())
  }

  /** The row is at or after the cursor position. */
  ghost predicate NotPassed(p: Path, tuple: seq<int>, row: Row)
    requires |tuple| <= |p.index.fields|
  {
    tuple == [] || !Passed(p.mode, Key(row, p.index, |tuple|), tuple)
  }

  /** The row `a` is met before `b`. */
  ghost predicate MetBefore(p: Path, a: Row, b: Row)
    requires p.index.NUniqueInTree() <= |p.index.fields|
  {
    Before(p.asc, FullKey(p, a), FullKey(p, b))
  }

  /** No row behind the cursor satisfies the claimed conjuncts. */
  lemma PassedFails(s: Select, i: nat, p: Plan, cmps: seq<Cmp>, outer: Env, row: Row, F: Functions)
    requires ScanOf(s, i, p, cmps)
    requires |p.path.tupleExps| <= |p.path.index.fields|
    requires !NotPassed(p.path, Tuple(p.path, outer, F), row)
    ensures !ClaimsHold(s, i, outer[s.tables[i].id := row], F)
  {
    ScanFacts(s, i, p, cmps);
    var t := Tuple(p.path, outer, F);
    var k, e := Key(row, p.path.index, |t|), p.path.nExactMatch;
    assert k == k[..|t|] && t == t[..|t|];
    if ClaimsHold(s, i, outer[s.tables[i].id := row], F) {
      ClaimsMeaning(s, i, p, cmps, outer, row, F);
      EndCondsMeaning(s, i, p, cmps, outer, row, F);
      assert k[..e] == t[..e];
      LexTotal(k, t);
      if |t| > e {
        LexNext(k, t, e);
        LexNext(t, k, e);
      }
    }
  }

  /** Rows after the cursor position stay after it. */
  lemma NotPassedMonotone(p: Path, tuple: seq<int>, a: Row, b: Row)
    requires |tuple| <= p.index.NUniqueInTree() <= |p.index.fields|
    requires p.asc <==> p.mode == CurG || p.mode == CurGE
    requires NotPassed(p, tuple, a) && MetBefore(p, a, b)
    ensures NotPassed(p, tuple, b)
  {
    var n := |tuple|;
    var ka, kb := Key(a, p.index, n), Key(b, p.index, n);
    assert ka == FullKey(p, a)[..n] && kb == FullKey(p, b)[..n];
    LexPrefix(FullKey(p, a), FullKey(p, b), n);
    LexPrefix(FullKey(p, b), FullKey(p, a), n);
    LexTotal(ka, tuple);
    LexTotal(kb, tuple);
    LexTotal(ka, kb);
    if p.asc {
      if LexLt(ka, kb) && LexLt(kb, tuple) { LexTransitive(ka, kb, tuple); }
    } else {
      if LexLt(kb, ka) && LexLt(tuple, kb) { LexTransitive(tuple, kb, ka); }
    }
  }

  /** A row between the cursor position and a row with the tuple's exact fields has them too, and comes no
      later in the next field. */
  lemma Between(p: Path, tuple: seq<int>, a: Row, b: Row)
    requires p.nExactMatch <= |tuple| <= p.index.NUniqueInTree() <= |p.index.fields|
    requires tuple != [] ==> (p.asc <==> p.mode == CurG || p.mode == CurGE)
    requires NotPassed(p, tuple, a) && (a == b || MetBefore(p, a, b)) && MatchesTuple(p, tuple, b)
    ensures MatchesTuple(p, tuple, a)
    ensures p.nExactMatch < p.index.NUniqueInTree() ==>
              var col := p.index.fields[p.nExactMatch];
              if p.asc then ColValue(a, col) <= ColValue(b, col) else ColValue(b, col) <= ColValue(a, col)
  {
    var n, e := |tuple|, p.nExactMatch;
    var fa, fb := FullKey(p, a), FullKey(p, b);
    var ka := Key(a, p.index, n);
    assert ka == fa[..n] && fb[..e] == tuple[..e];
    assert fa[..n][..e] == fa[..e];
    LexPrefix(fa, fb, e);
    LexPrefix(fb, fa, e);
    if tuple != [] {
      LexTotal(ka, tuple);
      LexPrefix(ka, tuple, e);
      LexPrefix(tuple, ka, e);
      LexTotal(fa[..e], fb[..e]);
    }
    assert fa[..e] == tuple[..e];
    forall j | 0 <= j < e ensures ColValue(a, p.index.fields[j]) == tuple[j] {
      assert fa[..e][j] == tuple[..e][j];
    }
    if e < |fa| {
      LexNext(fa, fb, e);
      LexNext(fb, fa, e);
    }
  }

  /** A far limit concerns a field the index is ordered on: behind the unique fields of a clustered index
      there is a system column, which a query cannot name. */
  lemma FarLimitField(s: Select, i: nat, p: Plan, cmps: seq<Cmp>, k: nat)
    requires ScanOf(s, i, p, cmps) && k < |s.cmps| && LimitsFarEnd(s, i, p.path, s.cmps[k])
    ensures p.path.nExactMatch < p.path.index.NUniqueInTree()
  {
    ScanFacts(s, i, p, cmps);
    var c, col := s.cmps[k], p.path.index.fields[p.path.nExactMatch];
    assert Resolved(c.left, s.tables) && Resolved(c.right, s.tables);
    var e := if IsColumn(c.left, s.tables[i].id, col) then c.left else c.right;
    var j :| 0 <= j < |s.tables| && s.tables[j].id == e.table && col < s.tables[j].nUserCols;
    assert j == i;
  }

  lemma CursorMode(s: Select, i: nat, p: Plan, cmps: seq<Cmp>)
    requires ScanOf(s, i, p, cmps)
    ensures p.path.tupleExps != [] ==> (p.path.asc <==> p.path.mode == CurG || p.path.mode == CurGE)
  {
  }

  /** Early stop is sound: once an end condition fails at a row, no later row satisfies what the table claims. */
  lemma EarlyStop(s: Select, i: nat, p: Plan, cmps: seq<Cmp>, outer: Env, a: Row, b: Row, F: Functions)
    requires ScanOf(s, i, p, cmps)
    requires |p.path.tupleExps| <= p.path.index.NUniqueInTree() <= |p.path.index.fields|
    requires NotPassed(p.path, Tuple(p.path, outer, F), a)
    requires a == b || MetBefore(p.path, a, b)
    requires EndCondsHold(p, cmps, outer, outer[s.tables[i].id := b], F)
    ensures EndCondsHold(p, cmps, outer, outer[s.tables[i].id := a], F)
  {
    hide Classify, OfClass, IsBest, Planned, LastOp, TupleExps;
    ScanFacts(s, i, p, cmps);
    CursorMode(s, i, p, cmps);
    EndCondsMeaning(s, i, p, cmps, outer, b, F);
    EndCondsMeaning(s, i, p, cmps, outer, a, F);
    Between(p.path, Tuple(p.path, outer, F), a, b);
    forall k | k in p.endConds && k < |s.cmps| && LimitsFarEnd(s, i, p.path, s.cmps[k])
      ensures CmpHolds(s.cmps[k], outer[s.tables[i].id := a], F)
    {
      FarLimitField(s, i, p, cmps, k);
      LookedUpMeaning(s, i, Comparison, p.path.index.fields[p.path.nExactMatch], k, outer, a, F);
      LookedUpMeaning(s, i, Comparison, p.path.index.fields[p.path.nExactMatch], k, outer, b, F);
    }
  }

  lemma MatchedKey(p: Path, t: seq<int>, row: Row)
    requires p.nExactMatch < |t| <= |p.index.fields| && MatchesTuple(p, t, row)
    ensures var k := Key(row, p.index, |t|);
      k[..p.nExactMatch] == t[..p.nExactMatch]
      && k[p.nExactMatch] == ColValue(row, p.index.fields[p.nExactMatch])
  {
  }

  /** The mode of a search that ends with a limit is the one of that limit. */
  lemma RangeMode(s: Select, i: nat, p: Plan, cmps: seq<Cmp>)
    requires ScanOf(s, i, p, cmps)
    ensures CanRank(s, i, p.path.index) && Usable(s.asc, LastOp(s, i, p.path.index))
    ensures p.path.tupleExps != [] ==> p.path.mode == OpToSearchMode(s.asc, LastOp(s, i, p.path.index))
  {
    hide CanRank, LastOp, IsBest, OfClass, s.Valid, Leaves;
  }

  /** With all fields but the last equal, the last field decides. */
  lemma PassedAtLast(mode: SearchMode, k: seq<int>, t: seq<int>, e: nat)
    requires |k| == |t| == e + 1 && k[..e] == t[..e]
    ensures Passed(mode, k, t) <==>
      match mode {
        case CurGE => k[e] < t[e]
        case CurG => k[e] <= t[e]
        case CurLE => k[e] > t[e]
        case CurL => k[e] >= t[e]
      }
  {
    LexNext(k, t, e);
    LexNext(t, k, e);
    assert k == k[..e] + [k[e]] && t == t[..e] + [t[e]];
  }

  /** A row at or after the cursor with the exact fields satisfies the limit the cursor was positioned with:
      the conjunct need not be tested. */
  lemma PositionImpliesLimit(s: Select, i: nat, p: Plan, cmps: seq<Cmp>, outer: Env, row: Row, F: Functions)
    requires ScanOf(s, i, p, cmps)
    requires |p.path.tupleExps| <= |p.path.index.fields| && CanRank(s, i, p.path.index)
    requires NotPassed(p.path, Tuple(p.path, outer, F), row)
    requires MatchesTuple(p.path, Tuple(p.path, outer, F), row)
    ensures InRange(s, i, p.path, Tuple(p.path, outer, F), row)
  {
    hide ScanOf, Planned, Classify, LimitsFarEnd, LastOp, Passed, CanRank, MatchesTuple, Key, Tuple, ColValue;
    ScanFacts(s, i, p, cmps);
    RangeMode(s, i, p, cmps);
    var t, e := Tuple(p.path, outer, F), p.path.nExactMatch;
    if |t| > e {
      MatchedKey(p.path, t, row);
      PassedAtLast(p.path.mode, Key(row, p.path.index, |t|), t, e);
    }
  }

  /** For a row at or after the cursor: claimed conjuncts hold iff the tested ones do. */
  lemma TestedIsEnough(s: Select, i: nat, p: Plan, cmps: seq<Cmp>, outer: Env, row: Row, F: Functions)
    requires ScanOf(s, i, p, cmps)
    requires |p.path.tupleExps| <= |p.path.index.fields|
    requires NotPassed(p.path, Tuple(p.path, outer, F), row)
    ensures var env := outer[s.tables[i].id := row];
      ClaimsHold(s, i, env, F) <==> EndCondsHold(p, cmps, outer, env, F) && OtherCondsHold(p, cmps, env, F)
  {
    ScanFacts(s, i, p, cmps);
    ClaimsMeaning(s, i, p, cmps, outer, row, F);
    EndCondsMeaning(s, i, p, cmps, outer, row, F);
    if MatchesTuple(p.path, Tuple(p.path, outer, F), row) {
      PositionImpliesLimit(s, i, p, cmps, outer, row, F);
    }
  }

  // ----- one table's scan is a filter

  ghost function Qualifying(s: Select, i: nat, outer: Env, rows: seq<Row>, F: Functions): seq<Row>
    requires i < |s.tables|
  {
    if rows == [] then []
    else (if ClaimsHold(s, i, outer[s.tables[i].id := rows[0]], F) then [rows[0]] else [])
         + Qualifying(s, i, outer, rows[1..], F)
  }

  lemma {:induction false} NoneQualify(s: Select, i: nat, outer: Env, rows: seq<Row>, F: Functions)
    requires i < |s.tables|
    requires forall j :: 0 <= j < |rows| ==> !ClaimsHold(s, i, outer[s.tables[i].id := rows[j]], F)
    ensures Qualifying(s, i, outer, rows, F) == []
  {
    if rows != [] {
      NoneQualify(s, i, outer, rows[1..], F);
    }
  }

  ghost predicate InOrder(p: Path, rows: seq<Row>)
    requires p.index.nUnique <= p.index.NUniqueInTree() <= |p.index.fields|
  {
    && (forall a, b :: 0 <= a < b < |rows| ==> MetBefore(p, rows[a], rows[b]))
    && (forall a, b :: 0 <= a < b < |rows| ==> Key(rows[a], p.index, p.index.nUnique) != Key(rows[b], p.index, p.index.nUnique))
  }

  /** The rows lie ahead of the cursor, in travel order, and no two agree on the unique fields. */
  ghost predicate Ahead(p: Path, tuple: seq<int>, rows: seq<Row>)
    requires |tuple| <= p.index.NUniqueInTree() <= |p.index.fields| && p.index.nUnique <= |p.index.fields|
  {
    && (forall j :: 0 <= j < |rows| ==> NotPassed(p, tuple, rows[j]))
    && InOrder(p, rows)
  }

  /** When the first row fails an end condition, none of the rows qualifies. */
  lemma StopLosesNothing(s: Select, i: nat, p: Plan, cmps: seq<Cmp>, outer: Env, rows: seq<Row>, F: Functions)
    requires ScanOf(s, i, p, cmps)
    requires |p.path.tupleExps| <= p.path.index.NUniqueInTree() <= |p.path.index.fields| && p.path.index.nUnique <= |p.path.index.fields|
    requires rows != [] && Ahead(p.path, Tuple(p.path, outer, F), rows)
    requires !EndCondsHold(p, cmps, outer, outer[s.tables[i].id := rows[0]], F)
    ensures Qualifying(s, i, outer, rows, F) == []
  {
    forall j | 0 <= j < |rows| ensures !ClaimsHold(s, i, outer[s.tables[i].id := rows[j]], F) {
      TestedIsEnough(s, i, p, cmps, outer, rows[j], F);
      if EndCondsHold(p, cmps, outer, outer[s.tables[i].id := rows[j]], F) {
        EarlyStop(s, i, p, cmps, outer, rows[0], rows[j], F);
      }
    }
    NoneQualify(s, i, outer, rows, F);
  }

  /** A range scan yields the qualifying rows. */
  lemma {:induction false} RangeScan(s: Select, i: nat, p: Plan, cmps: seq<Cmp>, outer: Env, rows: seq<Row>, F: Functions)
    requires ScanOf(s, i, p, cmps)
    requires |p.path.tupleExps| <= p.path.index.NUniqueInTree() <= |p.path.index.fields| && p.path.index.nUnique <= |p.path.index.fields|
    requires Ahead(p.path, Tuple(p.path, outer, F), rows)
    ensures Fetch(p, cmps, outer, rows, F) == Qualifying(s, i, outer, rows, F)
    decreases |rows|
  {
    if rows != [] {
      TestedIsEnough(s, i, p, cmps, outer, rows[0], F);
      if EndCondsHold(p, cmps, outer, outer[s.tables[i].id := rows[0]], F) {
        assert Ahead(p.path, Tuple(p.path, outer, F), rows[1..]);
        RangeScan(s, i, p, cmps, outer, rows[1..], F);
      } else {
        StopLosesNothing(s, i, p, cmps, outer, rows, F);
      }
    }
  }

  /** A unique search matches its tuple exactly, and then no far limit is among the end conditions. */
  lemma UniqueTest(s: Select, i: nat, p: Plan, cmps: seq<Cmp>, outer: Env, row: Row, F: Functions)
    requires ScanOf(s, i, p, cmps) && p.path.uniqueSearch
    ensures MatchesTuple(p.path, Tuple(p.path, outer, F), row) <==>
            EndCondsHold(p, cmps, outer, outer[s.tables[i].id := row], F)
  {
    ScanFacts(s, i, p, cmps);
    EndCondsMeaning(s, i, p, cmps, outer, row, F);
    forall k | k in p.endConds && k < |s.cmps| ensures !LimitsFarEnd(s, i, p.path, s.cmps[k]) {
      if LimitsFarEnd(s, i, p.path, s.cmps[k]) {
        FarLimitField(s, i, p, cmps, k);
      }
    }
  }

  lemma SameKey(p: Path, t: seq<int>, a: Row, b: Row, n: nat)
    requires n <= p.nExactMatch <= |t| && n <= |p.index.fields| && MatchesTuple(p, t, a) && MatchesTuple(p, t, b)
    ensures Key(a, p.index, n) == Key(b, p.index, n)
  {
  }

  /** When every unique field is matched exactly, a row that passes the end conditions is the only one. */
  lemma AtMostOneMatch(s: Select, i: nat, p: Plan, cmps: seq<Cmp>, outer: Env, rows: seq<Row>, F: Functions)
    requires ScanOf(s, i, p, cmps) && p.path.index.nUnique <= p.path.nExactMatch
    requires p.path.index.nUnique <= p.path.index.NUniqueInTree() <= |p.path.index.fields|
    requires rows != [] && InOrder(p.path, rows)
    requires MatchesTuple(p.path, Tuple(p.path, outer, F), rows[0])
    ensures forall j :: 0 <= j < |rows[1..]| ==> !ClaimsHold(s, i, outer[s.tables[i].id := rows[1..][j]], F)
  {
    ScanFacts(s, i, p, cmps);
    var t, n := Tuple(p.path, outer, F), p.path.index.nUnique;
    forall j | 0 <= j < |rows[1..]| ensures !ClaimsHold(s, i, outer[s.tables[i].id := rows[1..][j]], F) {
      ClaimsMeaning(s, i, p, cmps, outer, rows[j + 1], F);
      EndCondsMeaning(s, i, p, cmps, outer, rows[j + 1], F);
      if MatchesTuple(p.path, t, rows[j + 1]) {
        SameKey(p.path, t, rows[0], rows[j + 1], n);
      }
    }
  }

  /** Opening the cursor drops only rows that do not qualify, and leaves the rest ahead. */
  lemma {:induction false} OpenLosesNothing(s: Select, i: nat, p: Plan, cmps: seq<Cmp>, outer: Env, rows: seq<Row>, F: Functions)
    requires ScanOf(s, i, p, cmps)
    requires |p.path.tupleExps| <= p.path.index.NUniqueInTree() <= |p.path.index.fields| && p.path.index.nUnique <= |p.path.index.fields|
    requires InOrder(p.path, rows)
    ensures var ahead := Open(p.path, Tuple(p.path, outer, F), rows);
      Ahead(p.path, Tuple(p.path, outer, F), ahead)
      && Qualifying(s, i, outer, ahead, F) == Qualifying(s, i, outer, rows, F)
  {
    var t := Tuple(p.path, outer, F);
    if rows != [] {
      if !NotPassed(p.path, t, rows[0]) {
        PassedFails(s, i, p, cmps, outer, rows[0], F);
        OpenLosesNothing(s, i, p, cmps, outer, rows[1..], F);
      } else {
        CursorMode(s, i, p, cmps);
        forall j | 0 < j < |rows| ensures NotPassed(p.path, t, rows[j]) {
          if t != [] {
            NotPassedMonotone(p.path, t, rows[0], rows[j]);
          }
        }
      }
    }
  }

  lemma UniqueFacts(s: Select, i: nat, p: Plan, cmps: seq<Cmp>)
    requires ScanOf(s, i, p, cmps) && p.path.uniqueSearch
    ensures 1 <= |p.path.tupleExps| == p.path.nExactMatch <= |p.path.index.fields|
    ensures p.path.asc == s.asc && p.path.mode == if s.asc then CurGE else CurLE
  {
    hide CanRank, LastOp, IsBest, OfClass, s.Valid, Leaves, IsPlan;
    ScanFacts(s, i, p, cmps);
    RangeMode(s, i, p, cmps);
    assert p.path.index.clustered && p.path.nExactMatch >= p.path.index.nUnique && p.path.asc == s.asc by {
      assert IsPlan(s, i, p);
    }
    assert p.path.index.Valid(s.tables[i].nUserCols);
    assert LastOp(s, i, p.path.index) == Eq;
  }

  /** The rows that opening the cursor skips are those the mode passes over. */
  lemma {:induction false} OpenSkips(p: Path, tuple: seq<int>, rows: seq<Row>)
    requires |tuple| <= |p.index.fields|
    ensures |Open(p, tuple, rows)| <= |rows|
    ensures forall j :: 0 <= j < |rows| - |Open(p, tuple, rows)| ==>
              tuple != [] && Passed(p.mode, Key(rows[j], p.index, |tuple|), tuple)
  {
    if rows != [] && tuple != [] && Passed(p.mode, Key(rows[0], p.index, |tuple|), tuple) {
      OpenSkips(p, tuple, rows[1..]);
      forall j | 0 < j < |rows| - |Open(p, tuple, rows)| ensures Passed(p.mode, Key(rows[j], p.index, |tuple|), tuple) {
        assert rows[j] == rows[1..][j - 1];
      }
    }
  }

  lemma MatchedIsKey(p: Path, tuple: seq<int>, row: Row)
    requires |tuple| == p.nExactMatch <= |p.index.fields| && MatchesTuple(p, tuple, row)
    ensures Key(row, p.index, |tuple|) == tuple
  {
  }

  lemma PassedDoesNotMatch(p: Path, tuple: seq<int>, row: Row)
    requires |tuple| == p.nExactMatch <= |p.index.fields| && p.mode == CurLE
    requires Passed(p.mode, Key(row, p.index, |tuple|), tuple)
    ensures !MatchesTuple(p, tuple, row)
  {
    LexTotal(tuple, Key(row, p.index, |tuple|));
    if MatchesTuple(p, tuple, row) {
      MatchedIsKey(p, tuple, row);
      assert false;
    }
  }

  lemma UniqueRow(s: Select, i: nat, p: Plan, cmps: seq<Cmp>, outer: Env, rows: seq<Row>, F: Functions)
    requires ScanOf(s, i, p, cmps) && p.path.uniqueSearch && rows != []
    requires |p.path.tupleExps| <= p.path.index.NUniqueInTree() <= |p.path.index.fields| && p.path.index.nUnique <= |p.path.index.fields|
    requires Ahead(p.path, Tuple(p.path, outer, F), rows)
    ensures Qualifying(s, i, outer, rows, F) ==
            if MatchesTuple(p.path, Tuple(p.path, outer, F), rows[0])
               && OtherCondsHold(p, cmps, outer[p.path.table.id := rows[0]], F) then [rows[0]] else []
  {
    UniqueTest(s, i, p, cmps, outer, rows[0], F);
    TestedIsEnough(s, i, p, cmps, outer, rows[0], F);
    if MatchesTuple(p.path, Tuple(p.path, outer, F), rows[0]) {
      AtMostOneMatch(s, i, p, cmps, outer, rows, F);
      NoneQualify(s, i, outer, rows[1..], F);
    } else {
      StopLosesNothing(s, i, p, cmps, outer, rows, F);
    }
  }

  /** A unique search upwards may end with its first row; one downwards finds nothing, whether or not there is a
      row to find. */
  lemma UniqueScan(s: Select, i: nat, p: Plan, cmps: seq<Cmp>, outer: Env, rows: seq<Row>, F: Functions)
    requires ScanOf(s, i, p, cmps) && p.path.uniqueSearch
    requires |p.path.tupleExps| <= p.path.index.NUniqueInTree() <= |p.path.index.fields| && p.path.index.nUnique <= |p.path.index.fields|
    requires InOrder(p.path, rows)
    ensures FetchUnique(p, cmps, Tuple(p.path, outer, F), outer, rows, F)
            == if p.path.asc then Qualifying(s, i, outer, rows, F) else []
  {
    hide ScanOf, MatchesTuple, OtherCondsHold, EndCondsHold, Passed, InOrder, Ahead, ClaimsHold;
    var t := Tuple(p.path, outer, F);
    var ahead := Open(p.path, t, rows);
    if p.path.asc {
      OpenLosesNothing(s, i, p, cmps, outer, rows, F);
      if ahead != [] {
        UniqueRow(s, i, p, cmps, outer, ahead, F);
      }
    } else {
      UniqueFacts(s, i, p, cmps);
      OpenSkips(p.path, t, rows);
      if UpRecord(p.path, t, rows).Some? {
        PassedDoesNotMatch(p.path, t, UpRecord(p.path, t, rows).value);
      }
    }
  }

  lemma TravelInOrder(p: Path, rows: seq<Row>)
    requires p.index.nUnique <= p.index.NUniqueInTree() <= |p.index.fields| && IndexOrdered(rows, p.index)
    ensures InOrder(p, Travel(p.asc, rows))
  {
  }

  /** The scan of one table yields exactly the rows that satisfy the conjuncts the table claims, unless it is a unique
      search downwards. */
  lemma ScanIsFilter(s: Select, i: nat, plans: seq<Plan>, cmps: seq<Cmp>, db: Database, outer: Env, F: Functions)
    requires i < |plans| && ScanOf(s, i, plans[i], cmps)
    requires plans[i].path.index.nUnique <= |plans[i].path.index.fields|
    requires IndexOrdered(db(i, plans[i].path.index), plans[i].path.index)
    ensures |plans[i].path.tupleExps| <= |plans[i].path.index.fields|
    ensures FetchTable(plans, cmps, db, i, outer, F)
            == if DescendingUnique(plans[i].path) then []
               else Qualifying(s, i, outer, Travel(plans[i].path.asc, db(i, plans[i].path.index)), F)
  {
    hide ScanOf, IndexOrdered, InOrder, FetchUnique, Fetch;
    var p := plans[i];
    ScanFacts(s, i, p, cmps);
    var rows := Travel(p.path.asc, db(i, p.path.index));
    TravelInOrder(p.path, db(i, p.path.index));
    if p.path.uniqueSearch {
      UniqueScan(s, i, p, cmps, outer, rows, F);
    } else {
      OpenLosesNothing(s, i, p, cmps, outer, rows, F);
      RangeScan(s, i, p, cmps, outer, Open(p.path, Tuple(p.path, outer, F), rows), F);
    }
  }

  // ----- the nested loops

  /** Every index holds the rows of its table in order. */
  ghost predicate ValidDatabase(s: Select, db: Database) {
    forall i, ix :: 0 <= i < |s.tables| && ix in s.tables[i].indexes && ix.nUnique <= |ix.fields| ==>
      IndexOrdered(db(i, ix), ix)
  }

  ghost predicate Executable(s: Select, plans: seq<Plan>, cmps: seq<Cmp>, db: Database) {
    && s.Valid() && |plans| == |s.tables| && Runnable(plans)
    && (forall i :: 0 <= i < |plans| ==> ScanOf(s, i, plans[i], cmps))
    && forall i :: 0 <= i < |plans| ==>
         plans[i].path.index.nUnique <= |plans[i].path.index.fields| && IndexOrdered(db(i, plans[i].path.index), plans[i].path.index)
  }

  lemma PlannedIsScan(s: Select, i: nat, plans: seq<Plan>, cmps: seq<Cmp>)
    requires s.Valid() && PlannedUpTo(s, |s.tables|, plans, cmps) && i < |plans|
    ensures ScanOf(s, i, plans[i], cmps) && IsBest(s, i, plans[i].path.index)
  {
    hide IsAccessPath, IsBest, CmpDeterminedBefore;
    assert IsPlan(s, i, plans[i]);
  }

  lemma PlannedIsExecutable(s: Select, plans: seq<Plan>, cmps: seq<Cmp>, db: Database)
    requires s.Valid() && PlannedUpTo(s, |s.tables|, plans, cmps) && ValidDatabase(s, db)
    ensures Executable(s, plans, cmps, db)
  {
    hide IsPlan, s.Valid, ScanOf, IndexOrdered, CmpDeterminedBefore;
    forall i | 0 <= i < |plans|
      ensures ScanOf(s, i, plans[i], cmps) && |plans[i].path.tupleExps| <= |plans[i].path.index.fields|
      ensures plans[i].path.index.nUnique <= |plans[i].path.index.fields|
      ensures IndexOrdered(db(i, plans[i].path.index), plans[i].path.index)
    {
      PlannedIsScan(s, i, plans, cmps);
      ScanFacts(s, i, plans[i], cmps);
      BestIsIndex(s, i, plans[i].path.index);
    }
  }

  /** No table is accessed by a unique search downwards. */
  predicate NoneDescending(plans: seq<Plan>) {
    forall i :: 0 <= i < |plans| ==> !DescendingUnique(plans[i].path)
  }

  /** All conjuncts claimed by the first i tables hold. */
  ghost predicate EarlierClaimsHold(s: Select, i: nat, env: Env, F: Functions)
    requires i <= |s.tables|
  {
    forall j :: 0 <= j < i ==> ClaimsHold(s, j, env, F)
  }

  lemma ClaimsSurvive(s: Select, i: nat, env: Env, row: Row, F: Functions)
    requires s.Valid() && i < |s.tables| && EarlierClaimsHold(s, i, env, F)
    ensures EarlierClaimsHold(s, i, env[s.tables[i].id := row], F)
  {
    var env' := env[s.tables[i].id := row];
    forall j | 0 <= j < i ensures ClaimsHold(s, j, env', F) {
      forall k | k in Leaves(s.cond) && k < |s.cmps| && Claims(s, j, s.cmps[k]) ensures CmpHolds(s.cmps[k], env', F) {
        assert ClaimsHold(s, j, env, F);
        CmpDeterminedValue(s.cmps[k], s.tables, j + 1, env, env', F);
      }
    }
  }

  /** Once a determined conjunct fails, no combination of later rows is in the result. */
  lemma {:induction false} FailedConjunct(s: Select, plans: seq<Plan>, db: Database, i: nat, env: Env, k: nat, F: Functions)
    requires s.Valid() && i <= |plans| == |s.tables|
    requires forall j :: 0 <= j < |plans| ==> plans[j].path.table == s.tables[j]
    requires k in Leaves(s.cond) && k < |s.cmps| && CmpDeterminedBefore(s.cmps[k], s.tables, i)
    requires !CmpHolds(s.cmps[k], env, F)
    ensures Reference(s, plans, db, i, env, F) == []
    decreases |plans| - i, 1, 0
  {
    if i == |plans| {
      CondIsAllLeaves(s.cond, s.cmps, env, F);
    } else {
      FailedConjunctRows(s, plans, db, i, env, Travel(plans[i].path.asc, db(i, plans[i].path.index)), k, F);
    }
  }

  lemma {:induction false} FailedConjunctRows(s: Select, plans: seq<Plan>, db: Database, i: nat, env: Env, rows: seq<Row>,
                                              k: nat, F: Functions)
    requires s.Valid() && i < |plans| == |s.tables|
    requires forall j :: 0 <= j < |plans| ==> plans[j].path.table == s.tables[j]
    requires k in Leaves(s.cond) && k < |s.cmps| && CmpDeterminedBefore(s.cmps[k], s.tables, i)
    requires !CmpHolds(s.cmps[k], env, F)
    ensures ReferenceRows(s, plans, db, i, env, rows, F) == []
    decreases |plans| - i, 0, |rows|
  {
    hide CmpHolds, CmpDeterminedBefore, Leaves, CondHolds;
    if rows != [] {
      var env' := env[s.tables[i].id := rows[0]];
      CmpDeterminedValue(s.cmps[k], s.tables, i, env, env', F);
      CmpDeterminedMonotone(s.cmps[k], s.tables, i, i + 1);
      FailedConjunct(s, plans, db, i + 1, env', k, F);
      FailedConjunctRows(s, plans, db, i, env, rows[1..], k, F);
    }
  }

  lemma {:induction false} JoinIsReference(s: Select, plans: seq<Plan>, cmps: seq<Cmp>, db: Database, i: nat, env: Env, F: Functions)
    requires Executable(s, plans, cmps, db) && i <= |plans| && EarlierClaimsHold(s, i, env, F)
    requires NoneDescending(plans)
    ensures Join(plans, cmps, db, i, env, F) == Reference(s, plans, db, i, env, F)
    decreases |plans| - i, 1, 0
  {
    if i == |plans| {
      CondIsAllLeaves(s.cond, s.cmps, env, F);
      forall k | k in Leaves(s.cond) ensures CmpHolds(s.cmps[k], env, F) {
        var j := ClaimedOnce(s, k);
        assert ClaimsHold(s, j, env, F);
      }
    } else {
      ScanIsFilter(s, i, plans, cmps, db, env, F);
      JoinRowsIsReference(s, plans, cmps, db, i, env, Travel(plans[i].path.asc, db(i, plans[i].path.index)), F);
    }
  }

  lemma OneMoreClaim(s: Select, i: nat, env: Env, F: Functions)
    requires i < |s.tables| && EarlierClaimsHold(s, i, env, F) && ClaimsHold(s, i, env, F)
    ensures EarlierClaimsHold(s, i + 1, env, F)
  {
    hide ClaimsHold;
  }

  lemma PlanTablesOf(s: Select, plans: seq<Plan>, cmps: seq<Cmp>, db: Database)
    requires Executable(s, plans, cmps, db)
    ensures forall j :: 0 <= j < |plans| ==> plans[j].path.table == s.tables[j]
  {
    forall j | 0 <= j < |plans| ensures plans[j].path.table == s.tables[j] {
      assert ScanOf(s, j, plans[j], cmps);
    }
  }

  /** A row that fails a conjunct its table claims has no continuation in the result. */
  lemma FailedClaim(s: Select, plans: seq<Plan>, cmps: seq<Cmp>, db: Database, i: nat, env: Env, F: Functions)
    requires Executable(s, plans, cmps, db) && i < |plans| && !ClaimsHold(s, i, env, F)
    ensures Reference(s, plans, db, i + 1, env, F) == []
  {
    hide ScanOf, Runnable, CmpHolds, CmpDeterminedBefore, Reference;
    PlanTablesOf(s, plans, cmps, db);
    var k :| k in Leaves(s.cond) && k < |s.cmps| && Claims(s, i, s.cmps[k]) && !CmpHolds(s.cmps[k], env, F);
    FailedConjunct(s, plans, db, i + 1, env, k, F);
  }

  lemma ExecutableFacts(s: Select, plans: seq<Plan>, cmps: seq<Cmp>, db: Database)
    requires Executable(s, plans, cmps, db)
    ensures s.Valid() && LeavesIn(s.cond, |s.cmps|) && |plans| == |s.tables| && Runnable(plans)
    ensures forall j :: 0 <= j < |plans| ==> plans[j].path.table == s.tables[j]
  {
    hide ScanOf, Runnable;
    PlanTablesOf(s, plans, cmps, db);
  }

  lemma {:induction false} JoinRowsIsReference(s: Select, plans: seq<Plan>, cmps: seq<Cmp>, db: Database, i: nat, env: Env,
                                               rows: seq<Row>, F: Functions)
    requires Executable(s, plans, cmps, db) && i < |plans| && EarlierClaimsHold(s, i, env, F)
    requires NoneDescending(plans)
    ensures JoinRows(plans, cmps, db, i, env, Qualifying(s, i, env, rows, F), F)
            == ReferenceRows(s, plans, db, i, env, rows, F)
    decreases |plans| - i, 0, |rows|
  {
    hide Executable, ScanOf, Runnable, ClaimsHold, EarlierClaimsHold, Leaves, LeavesIn, CondHolds, NoneDescending;
    ExecutableFacts(s, plans, cmps, db);
    if rows != [] {
      var env' := env[s.tables[i].id := rows[0]];
      JoinRowsIsReference(s, plans, cmps, db, i, env, rows[1..], F);
      if ClaimsHold(s, i, env', F) {
        ClaimsSurvive(s, i, env, rows[0], F);
        OneMoreClaim(s, i, env', F);
        JoinIsReference(s, plans, cmps, db, i + 1, env', F);
        assert Qualifying(s, i, env, rows, F)[1..] == Qualifying(s, i, env, rows[1..], F);
      } else {
        FailedClaim(s, plans, cmps, db, i, env', F);
        assert Qualifying(s, i, env, rows, F) == Qualifying(s, i, env, rows[1..], F);
      }
    }
  }

  ghost predicate NothingFrom(plans: seq<Plan>, cmps: seq<Cmp>, db: Database, i: nat, env: Env, F: Functions)
    requires i <= |plans| && Runnable(plans)
  {
    Join(plans, cmps, db, i, env, F) == []
  }

  lemma {:induction false} NoRowsBelow(plans: seq<Plan>, cmps: seq<Cmp>, db: Database, i: nat, next: nat, env: Env, rows: seq<Row>,
                                       F: Functions)
    requires i + 1 == next <= |plans| && Runnable(plans)
    requires forall e: Env :: NothingFrom(plans, cmps, db, next, e, F)
    ensures JoinRows(plans, cmps, db, i, env, rows, F) == []
  {
    hide Join;
    if rows != [] {
      assert NothingFrom(plans, cmps, db, next, env[plans[i].path.table.id := rows[0]], F);
      NoRowsBelow(plans, cmps, db, i, next, env, rows[1..], F);
    }
  }

  /** A unique search downwards, at any depth of the nested loops, leaves nothing of the result. */
  lemma {:induction false} JoinIsEmpty(s: Select, plans: seq<Plan>, cmps: seq<Cmp>, db: Database, i: nat, j: nat, env: Env, F: Functions)
    requires Executable(s, plans, cmps, db) && i <= j < |plans| && DescendingUnique(plans[j].path)
    ensures Runnable(plans) && Join(plans, cmps, db, i, env, F) == []
    decreases j - i
  {
    hide ScanOf, IndexOrdered, Fetch, FetchUnique;
    if i < j {
      var next := i + 1;
      forall e: Env ensures NothingFrom(plans, cmps, db, next, e, F) {
        JoinIsEmpty(s, plans, cmps, db, next, j, e, F);
      }
      NoRowsBelow(plans, cmps, db, i, next, env, FetchTable(plans, cmps, db, i, env, F), F);
    } else {
      ScanIsFilter(s, i, plans, cmps, db, env, F);
    }
  }

  /** Main theorem: running the plan yields exactly the row combinations that satisfy the search condition, each in
      its place in the order of the scanned indexes, iff no table is accessed by a unique search downwards or there
      is nothing to find. */
  lemma PlanPreservesMeaning(s: Select, plans: seq<Plan>, cmps: seq<Cmp>, db: Database, F: Functions)
    requires s.Valid() && PlannedUpTo(s, |s.tables|, plans, cmps) && ValidDatabase(s, db)
    ensures Runnable(plans)
    ensures Join(plans, cmps, db, 0, map[], F)
            == if NoneDescending(plans) then Reference(s, plans, db, 0, map[], F) else []
    ensures Join(plans, cmps, db, 0, map[], F) == Reference(s, plans, db, 0, map[], F)
            <==> NoneDescending(plans) || Reference(s, plans, db, 0, map[], F) == []
  {
    hide PlannedUpTo, Executable, Join, Reference, DescendingUnique;
    PlannedIsExecutable(s, plans, cmps, db);
    ExecutableFacts(s, plans, cmps, db);
    if NoneDescending(plans) {
      JoinIsReference(s, plans, cmps, db, 0, map[], F);
    } else {
      var j :| 0 <= j < |plans| && DescendingUnique(plans[j].path);
      JoinIsEmpty(s, plans, cmps, db, 0, j, map[], F);
    }
  }

  /** The rows of `out` lie in the index range of each table, given by tuple, mode and direction, and pass its end
      conditions and its other conditions. */
  ghost predicate InAllRanges(plans: seq<Plan>, cmps: seq<Cmp>, out: Env, F: Functions)
    requires Runnable(plans) && forall i :: 0 <= i < |plans| ==> plans[i].path.table.id in out
  {
    forall i :: 0 <= i < |plans| ==>
      var p := plans[i];
      && NotPassed(p.path, Tuple(p.path, out, F), out[p.path.table.id])
      && EndCondsHold(p, cmps, out, out, F) && OtherCondsHold(p, cmps, out, F)
  }

  lemma PlanTable(s: Select, i: nat, p: Plan, cmps: seq<Cmp>)
    requires ScanOf(s, i, p, cmps)
    ensures p.path.table == s.tables[i] && |p.path.tupleExps| <= |p.path.index.fields|
  {
    ScanFacts(s, i, p, cmps);
  }

  lemma RowDecides(s: Select, i: nat, p: Plan, cmps: seq<Cmp>, out: Env, F: Functions)
    requires i < |s.tables| && ScanOf(s, i, p, cmps) && s.tables[i].id in out && |p.path.tupleExps| <= |p.path.index.fields|
    ensures ClaimsHold(s, i, out, F) <==>
            NotPassed(p.path, Tuple(p.path, out, F), out[s.tables[i].id])
            && EndCondsHold(p, cmps, out, out, F) && OtherCondsHold(p, cmps, out, F)
  {
    hide ScanOf, ClaimsHold, EndCondsHold, OtherCondsHold, NotPassed;
    var row := out[s.tables[i].id];
    assert out[s.tables[i].id := row] == out;
    if NotPassed(p.path, Tuple(p.path, out, F), row) {
      TestedIsEnough(s, i, p, cmps, out, row, F);
    } else {
      PassedFails(s, i, p, cmps, out, row, F);
    }
  }

  /** The tables' claims together are the search condition. */
  lemma ClaimsAreAll(s: Select, out: Env, F: Functions)
    requires s.Valid()
    ensures CondHolds(s.cond, s.cmps, out, F) <==> forall i :: 0 <= i < |s.tables| ==> ClaimsHold(s, i, out, F)
  {
    CondIsAllLeaves(s.cond, s.cmps, out, F);
    if forall i :: 0 <= i < |s.tables| ==> ClaimsHold(s, i, out, F) {
      forall k | k in Leaves(s.cond) ensures CmpHolds(s.cmps[k], out, F) {
        var i := ClaimedOnce(s, k);
        assert ClaimsHold(s, i, out, F);
      }
    }
  }

  /** What the plan says, whatever runs it: a row combination satisfies the search condition iff at every table its row
      lies in the range and passes the conditions of the plan. Dropping the scroll conditions changes nothing. */
  lemma PlanDecides(s: Select, plans: seq<Plan>, cmps: seq<Cmp>, out: Env, F: Functions)
    requires s.Valid() && PlannedUpTo(s, |s.tables|, plans, cmps)
    requires forall i :: 0 <= i < |s.tables| ==> s.tables[i].id in out
    ensures |plans| == |s.tables| && Runnable(plans)
    ensures forall i :: 0 <= i < |plans| ==> plans[i].path.table == s.tables[i]
    ensures CondHolds(s.cond, s.cmps, out, F) <==> InAllRanges(plans, cmps, out, F)
  {
    hide IsPlan, CmpDeterminedBefore, ScanOf, IsBest, Leaves, CondHolds, NotPassed, EndCondsHold, OtherCondsHold, CmpHolds,
      s.Valid, Claims;
    assert |plans| == |s.tables|;
    forall i | 0 <= i < |plans|
      ensures plans[i].path.table == s.tables[i] && |plans[i].path.tupleExps| <= |plans[i].path.index.fields|
      ensures var p := plans[i];
        ClaimsHold(s, i, out, F) <==>
        NotPassed(p.path, Tuple(p.path, out, F), out[s.tables[i].id])
        && EndCondsHold(p, cmps, out, out, F) && OtherCondsHold(p, cmps, out, F)
    {
      PlannedIsScan(s, i, plans, cmps);
      PlanTable(s, i, plans[i], cmps);
      RowDecides(s, i, plans[i], cmps, out, F);
    }
    ClaimsAreAll(s, out, F);
  }

  /** `out` gives every table from the i-th on one of its rows, and agrees with `env` elsewhere. */
  ghost predicate Combines(s: Select, plans: seq<Plan>, db: Database, i: nat, env: Env, out: Env)
    requires i <= |plans| == |s.tables|
  {
    && (forall j :: i <= j < |plans| ==> s.tables[j].id in out && out[s.tables[j].id] in db(j, plans[j].path.index))
    && (forall t :: (forall j :: i <= j < |plans| ==> s.tables[j].id != t) ==>
          (t in out <==> t in env) && (t in env ==> out[t] == env[t]))
  }

  lemma TravelMembers(asc: bool, rows: seq<Row>)
    ensures forall r :: r in Travel(asc, rows) <==> r in rows
  {
    forall r | r in rows ensures r in Travel(asc, rows) {
      var j :| 0 <= j < |rows| && rows[j] == r;
      assert Travel(asc, rows)[if asc then j else |rows| - 1 - j] == r;
    }
  }

  lemma CombinesStep(s: Select, plans: seq<Plan>, db: Database, i: nat, env: Env, out: Env)
    requires s.Valid() && i < |plans| == |s.tables| && s.tables[i].id in out
    ensures Combines(s, plans, db, i, env, out) <==>
            Combines(s, plans, db, i + 1, env[s.tables[i].id := out[s.tables[i].id]], out)
            && out[s.tables[i].id] in db(i, plans[i].path.index)
  {
  }

  /** What the reference is: a row combination is in it iff it is in the cross product and the condition holds. */
  lemma {:induction false} ReferenceMembers(s: Select, plans: seq<Plan>, db: Database, i: nat, env: Env, out: Env, F: Functions)
    requires s.Valid() && i <= |plans| == |s.tables|
    requires forall j :: 0 <= j < |plans| ==> plans[j].path.table == s.tables[j]
    ensures out in Reference(s, plans, db, i, env, F) <==>
            Combines(s, plans, db, i, env, out) && CondHolds(s.cond, s.cmps, out, F)
    decreases |plans| - i, 1, 0
  {
    if i == |plans| {
      if Combines(s, plans, db, i, env, out) {
        assert out == env;
      }
    } else {
      var rows := Travel(plans[i].path.asc, db(i, plans[i].path.index));
      ReferenceRowsMembers(s, plans, db, i, env, rows, out, F);
      assert forall r :: r in rows <==> r in db(i, plans[i].path.index) by {
        TravelMembers(plans[i].path.asc, db(i, plans[i].path.index));
      }
      var t := s.tables[i].id;
      if t in out {
        CombinesStep(s, plans, db, i, env, out);
      }
    }
  }

  lemma {:induction false} ReferenceRowsMembers(s: Select, plans: seq<Plan>, db: Database, i: nat, env: Env, rows: seq<Row>,
                                                out: Env, F: Functions)
    requires s.Valid() && i < |plans| == |s.tables|
    requires forall j :: 0 <= j < |plans| ==> plans[j].path.table == s.tables[j]
    ensures out in ReferenceRows(s, plans, db, i, env, rows, F) <==>
            s.tables[i].id in out && out[s.tables[i].id] in rows
            && Combines(s, plans, db, i + 1, env[s.tables[i].id := out[s.tables[i].id]], out)
            && CondHolds(s.cond, s.cmps, out, F)
    decreases |plans| - i, 0, |rows|
  {
    if rows != [] {
      var t := s.tables[i].id;
      ReferenceMembers(s, plans, db, i + 1, env[t := rows[0]], out, F);
      ReferenceRowsMembers(s, plans, db, i, env, rows[1..], out, F);
      if Combines(s, plans, db, i + 1, env[t := rows[0]], out) {
        assert forall j :: i + 1 <= j < |plans| ==> s.tables[j].id != t;
        assert t in out && out[t] == rows[0];
      }
      assert rows == [rows[0]] + rows[1..];
    }
  }
}
