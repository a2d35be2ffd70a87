/** What a select is for, said without any plan: the optimizer's plan finds every answer, and each once. */
module QueryAnswer {
  import opened Wrappers
  import opened Query
  import opened Lookup
  import opened AccessPath
  import opened Planner
  import opened LexOrder
  import opened Executor
  import opened PlanMeaning

  /** The rows of the i-th table, whatever index they are read from. */
  type Contents = nat -> set<Row>

  /** Every index of a table holds exactly the rows of the table. */
  ghost predicate IndexesAgree(s: Select, db: Database, rows: Contents) {
    forall i, ix :: 0 <= i < |s.tables| && ix in s.tables[i].indexes ==> forall r :: r in db(i, ix) <==> r in rows(i)
  }

  ghost predicate IsTableId(s: Select, t: nat) {
    exists i :: 0 <= i < |s.tables| && s.tables[i].id == t
  }

  /** One row of every table, together satisfying the search condition. */
  ghost predicate IsAnswer(s: Select, rows: Contents, out: Env, F: Functions)
    requires LeavesIn(s.cond, |s.cmps|)
  {
    && (forall t :: t in out <==> IsTableId(s, t))
    && (forall i :: 0 <= i < |s.tables| ==> s.tables[i].id in out && out[s.tables[i].id] in rows(i))
    && CondHolds(s.cond, s.cmps, out, F)
  }

  lemma CombinesIsCrossProduct(s: Select, plans: seq<Plan>, cmps: seq<Cmp>, db: Database, rows: Contents, out: Env)
    requires s.Valid() && PlannedUpTo(s, |s.tables|, plans, cmps) && IndexesAgree(s, db, rows)
    ensures |plans| == |s.tables|
    ensures Combines(s, plans, db, 0, map[], out) <==>
            (forall t :: t in out <==> IsTableId(s, t))
            && forall i :: 0 <= i < |s.tables| ==> s.tables[i].id in out && out[s.tables[i].id] in rows(i)
  {
    hide IsPlan, s.Valid, CmpDeterminedBefore, IsBest, ScanOf;
    forall i | 0 <= i < |plans| ensures plans[i].path.index in s.tables[i].indexes {
      PlannedIsScan(s, i, plans, cmps);
      BestIsIndex(s, i, plans[i].path.index);
    }
    forall t
      ensures (forall j :: 0 <= j < |plans| ==> s.tables[j].id != t) <==> !IsTableId(s, t)
    {
    }
  }

  /** A row combination is in the result iff it is an answer and no table is accessed by a unique search downwards. */
  lemma ResultIsAnswers(s: Select, plans: seq<Plan>, cmps: seq<Cmp>, db: Database, rows: Contents, out: Env, F: Functions)
    requires s.Valid() && PlannedUpTo(s, |s.tables|, plans, cmps) && ValidDatabase(s, db) && IndexesAgree(s, db, rows)
    ensures Runnable(plans)
    ensures out in Join(plans, cmps, db, 0, map[], F) <==> IsAnswer(s, rows, out, F) && NoneDescending(plans)
  {
    hide PlannedUpTo, Combines, Join, Reference, CondHolds, IsTableId, NoneDescending;
    PlanPreservesMeaning(s, plans, cmps, db, F);
    CombinesIsCrossProduct(s, plans, cmps, db, rows, out);
    PlannedIsExecutable(s, plans, cmps, db);
    ExecutableFacts(s, plans, cmps, db);
    ReferenceMembers(s, plans, db, 0, map[], out, F);
  }

  // ----- each answer once

  lemma OrderedIsDistinct(rows: seq<Row>, ix: Index, asc: bool)
    requires ix.nUnique <= |ix.fields| && IndexOrdered(rows, ix)
    ensures NoDuplicates(Travel(asc, rows))
  {
  }

  lemma DistinctConcat<T>(a: seq<T>, b: seq<T>)
    requires NoDuplicates(a) && NoDuplicates(b) && forall x :: x in a ==> x !in b
    ensures NoDuplicates(a + b)
  {
    forall i, j | 0 <= i < j < |a + b| ensures (a + b)[i] != (a + b)[j] {
      if i < |a| <= j {
        assert a[i] in a && b[j - |a|] in b;
      }
    }
  }

  lemma {:induction false} ReferenceDistinct(s: Select, plans: seq<Plan>, cmps: seq<Cmp>, db: Database, i: nat, env: Env, F: Functions)
    requires Executable(s, plans, cmps, db) && i <= |plans| && LeavesIn(s.cond, |s.cmps|)
    ensures NoDuplicates(Reference(s, plans, db, i, env, F))
    decreases |plans| - i, 1, 0
  {
    if i < |plans| {
      OrderedIsDistinct(db(i, plans[i].path.index), plans[i].path.index, plans[i].path.asc);
      ReferenceRowsDistinct(s, plans, cmps, db, i, env, Travel(plans[i].path.asc, db(i, plans[i].path.index)), F);
    }
  }

  lemma FirstRow(s: Select, plans: seq<Plan>, cmps: seq<Cmp>, db: Database, i: nat, env: Env, row: Row, out: Env, F: Functions)
    requires Executable(s, plans, cmps, db) && i < |plans| && LeavesIn(s.cond, |s.cmps|)
    requires out in Reference(s, plans, db, i + 1, env[s.tables[i].id := row], F)
    ensures s.tables[i].id in out && out[s.tables[i].id] == row
  {
    hide Executable, CondHolds, Reference;
    ExecutableFacts(s, plans, cmps, db);
    ReferenceMembers(s, plans, db, i + 1, env[s.tables[i].id := row], out, F);
    assert forall j :: i + 1 <= j < |plans| ==> s.tables[j].id != s.tables[i].id;
  }

  /** Combinations with different rows of the i-th table are different. */
  lemma {:induction false} ReferenceRowsDistinct(s: Select, plans: seq<Plan>, cmps: seq<Cmp>, db: Database, i: nat, env: Env,
                                                 rows: seq<Row>, F: Functions)
    requires Executable(s, plans, cmps, db) && i < |plans| && LeavesIn(s.cond, |s.cmps|) && NoDuplicates(rows)
    ensures NoDuplicates(ReferenceRows(s, plans, db, i, env, rows, F))
    decreases |plans| - i, 0, |rows|
  {
    hide Executable, Combines, CondHolds;
    ExecutableFacts(s, plans, cmps, db);
    if rows != [] {
      var t := s.tables[i].id;
      var first := Reference(s, plans, db, i + 1, env[t := rows[0]], F);
      var others := ReferenceRows(s, plans, db, i, env, rows[1..], F);
      forall out | out in first ensures out !in others {
        FirstRow(s, plans, cmps, db, i, env, rows[0], out, F);
        ReferenceRowsMembers(s, plans, db, i, env, rows[1..], out, F);
        assert rows[0] !in rows[1..];
      }
      ReferenceDistinct(s, plans, cmps, db, i + 1, env[t := rows[0]], F);
      ReferenceRowsDistinct(s, plans, cmps, db, i, env, rows[1..], F);
      DistinctConcat(first, others);
    }
  }

  /** No answer comes twice. */
  lemma ResultIsDistinct(s: Select, plans: seq<Plan>, cmps: seq<Cmp>, db: Database, F: Functions)
    requires s.Valid() && PlannedUpTo(s, |s.tables|, plans, cmps) && ValidDatabase(s, db)
    ensures Runnable(plans)
    ensures NoDuplicates(Join(plans, cmps, db, 0, map[], F))
  {
    hide PlannedUpTo, Join, Reference, Executable, NoneDescending;
    PlanPreservesMeaning(s, plans, cmps, db, F);
    PlannedIsExecutable(s, plans, cmps, db);
    ReferenceDistinct(s, plans, cmps, db, 0, map[], F);
  }
}
