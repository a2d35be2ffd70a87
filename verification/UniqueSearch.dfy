/**
  * When row_sel is right about unique searches: it asserts that they are made upwards, in mode PAGE_CUR_GE, because
  * up_match belongs to the record above the search position.
  */
module UniqueSearch {
  import opened Wrappers
  import opened Query
  import opened Lookup
  import opened AccessPath
  import opened PlanFacts
  import opened Planner
  import opened LexOrder
  import opened Executor
  import opened PlanMeaning

  /** The assertion of row_sel, for every table it searches. */
  predicate SearchesAsAsserted(plans: seq<Plan>) {
    forall i :: 0 <= i < |plans| && plans[i].path.uniqueSearch ==> plans[i].path.mode == CurGE
  }

  lemma PlanCount(s: Select, plans: seq<Plan>, cmps: seq<Cmp>)
    requires PlannedUpTo(s, |s.tables|, plans, cmps)
    ensures |plans| == |s.tables|
  {
  }

  /** The plans of the optimizer keep to the assertion iff none of them is a unique search downwards, that is iff the
      order is ascending or no table is searched for a unique row. */
  lemma AssertedIff(s: Select, plans: seq<Plan>, cmps: seq<Cmp>)
    requires s.Valid() && PlannedUpTo(s, |s.tables|, plans, cmps)
    ensures SearchesAsAsserted(plans) <==> NoneDescending(plans)
    ensures NoneDescending(plans) <==> s.asc || forall i :: 0 <= i < |plans| ==> !plans[i].path.uniqueSearch
  {
    hide s.Valid, PlannedUpTo, ScanOf, IsBest;
    assert |plans| == |s.tables| by { PlanCount(s, plans, cmps); }
    forall i | 0 <= i < |plans| && plans[i].path.uniqueSearch
      ensures plans[i].path.asc == s.asc && plans[i].path.mode == if s.asc then CurGE else CurLE
    {
      PlannedIsScan(s, i, plans, cmps);
      UniqueFacts(s, i, plans[i], cmps);
    }
  }

  // ----- a concrete query: select * from t where t.id = 5 order by t.id desc, on the row (5, 0)

  const KEY := Index([0, 1], 1, true)
  const TABLE := Table(0, 1, [KEY])
  const QUERY := Select([TABLE], Leaf(0), [Cmp(Eq, Column(1, 0, 0), Value(2, 5))], false)
  const PLAN := Plan(Path(TABLE, KEY, false, [Value(2, 5)], 1, CurLE, true), [0], [], [], false)

  function OneRow(i: nat, ix: Index): seq<Row> {
    [[5, 0]]
  }

  lemma QueryIsValid()
    ensures QUERY.Valid()
  {
    assert QUERY.tables[0].id == 0 && Resolved(QUERY.cmps[0].left, QUERY.tables);
  }

  lemma PlanIsMade()
    ensures IsPlan(QUERY, 0, PLAN)
  {
    assert QUERY.tables[0].id == 0;
    assert LookCol(Equal, QUERY, 0, KEY, 0) == Some((Value(2, 5), Eq));
    assert ExactRun(QUERY, 0, KEY, 1) == 0;
    assert NExact(QUERY, 0, KEY) == 1 && RangeAt(QUERY, 0, KEY).None?;
    assert TupleExps(QUERY, 0, KEY) == [Value(2, 5)];
    assert BestAt(QUERY, 0, KEY, 0);
    assert IsArg(PLAN.path.tupleExps[0], QUERY.cmps[0]);
    assert Classify(QUERY, 0, PLAN.path, QUERY.cmps[0]) == EndCond;
    assert Leaves(QUERY.cond) == [0];
    assert OfClass(QUERY, 0, PLAN.path, QUERY.cmps, [], EndCond) == [];
    assert OfClass(QUERY, 0, PLAN.path, QUERY.cmps, [], TestCond) == [];
    assert [0][1..] == [];
    assert OfClass(QUERY, 0, PLAN.path, QUERY.cmps, [0], EndCond) == [0];
    assert OfClass(QUERY, 0, PLAN.path, QUERY.cmps, [0], TestCond) == [];
  }

  lemma AnswerOfQuery(F: Functions)
    ensures QUERY.Valid() && Reference(QUERY, [PLAN], OneRow, 0, map[], F) == [map[0 := [5, 0]]]
  {
    hide QUERY.Valid;
    QueryIsValid();
    var env: Env := map[0 := [5, 0]];
    assert CmpHolds(QUERY.cmps[0], env, F);
    assert Reference(QUERY, [PLAN], OneRow, 1, env, F) == [env];
    assert map[][0 := [5, 0]] == env && [[5, 0]][1..] == [] && Travel(false, [[5, 0]]) == [[5, 0]];
    assert ReferenceRows(QUERY, [PLAN], OneRow, 0, map[], [], F) == [];
    assert ReferenceRows(QUERY, [PLAN], OneRow, 0, map[], [[5, 0]], F) == [env];
  }

  /** The row is an answer, the plan is one the optimizer makes, and the result is empty. */
  lemma DescendingQueryLosesItsRow(F: Functions)
    ensures QUERY.Valid() && PlannedUpTo(QUERY, 1, [PLAN], QUERY.cmps) && ValidDatabase(QUERY, OneRow)
    ensures Reference(QUERY, [PLAN], OneRow, 0, map[], F) == [map[0 := [5, 0]]]
    ensures Runnable([PLAN]) && Join([PLAN], QUERY.cmps, OneRow, 0, map[], F) == []
  {
    hide IsPlan, QUERY.Valid, Join;
    QueryIsValid();
    PlanIsMade();
    assert PlannedUpTo(QUERY, 1, [PLAN], QUERY.cmps) by {
      assert Normalized(QUERY.cmps[0], 0) == QUERY.cmps[0];
    }
    assert ValidDatabase(QUERY, OneRow) by {
      assert forall i, ix :: IndexOrdered(OneRow(i, ix), KEY);
    }
    AnswerOfQuery(F);
    PlanPreservesMeaning(QUERY, [PLAN], QUERY.cmps, OneRow, F);
    assert DescendingUnique([PLAN][0].path);
  }
}
