/** The optimizer proper: it fills in the plan of every table, updating the select node in place. */
module Planner {
  import opened Wrappers
  import opened Query
  import opened Lookup
  import opened AccessPath
  import opened ColumnLists
  import opened PlanFacts

  datatype OrderBy = OrderBy(table: nat, col: nat, asc: bool)

  predicate AtMostOneRow(p: Path) {
    p.index.nUnique <= p.nExactMatch
  }

  predicate NextFieldIs(p: Path, col: nat) {
    p.nExactMatch < |p.index.fields| && p.index.fields[p.nExactMatch] == col
  }

  /** If there is an ORDER BY, every table but the last yields at most one row and the last one is scanned
      in an index whose first not exactly matched field is the ORDER BY column. */
  predicate OrderByOk(order: Option<OrderBy>, tables: seq<Table>, plans: seq<Plan>)
    requires |plans| == |tables|
  {
    order.None? ||
    forall i :: 0 <= i < |tables| ==>
      var p := plans[i].path;
      if i < |tables| - 1 then AtMostOneRow(p) else p.table.id == order.value.table && (AtMostOneRow(p) || NextFieldIs(p, order.value.col))
  }

  predicate OnRight(c: Cmp, table: nat) {
    c.right.Column? && c.right.table == table
  }

  function Normalized(c: Cmp, table: nat): Cmp {
    if OnRight(c, table) then Swap(c) else c
  }

  ghost function ColumnsIn(p: Plan, copyVal: map<nat, bool>, indirection: map<nat, nat>): Columns {
    Columns(p.columns, p.mustGetClust, copyVal, indirection)
  }

  /** The listed comparisons have the column of the table on the left; the others are as they were. */
  ghost predicate NormalizedIn(before: seq<Cmp>, after: seq<Cmp>, conds: seq<nat>, table: nat) {
    |after| == |before| && forall k :: 0 <= k < |after| ==>
      after[k] == if k in conds then Normalized(before[k], table) else before[k]
  }

  /** The i-th plan has got its conditions, and their comparisons are normalized; nothing else has changed. */
  ghost predicate CondsDetermined(s: Select, i: nat, before: seq<Plan>, after: seq<Plan>, cmps: seq<Cmp>) {
    && i < |before| == |after| == |s.tables|
    && after == before[i := before[i].(endConds := after[i].endConds, otherConds := after[i].otherConds)]
    && IsPlan(s, i, after[i])
    && |after[i].endConds| >= after[i].path.nExactMatch
    && NormalizedIn(s.cmps, cmps, after[i].endConds, s.tables[i].id)
  }

  /** The listed comparisons have the column of the table on the left. */
  ghost predicate CondsNormalized(before: seq<Cmp>, after: seq<Cmp>, conds: seq<nat>, table: nat) {
    |after| == |before| && forall k :: k in conds ==> k < |after| && after[k] == Normalized(before[k], table)
  }

  /** The first n tables are planned, their end conditions are normalized, and no comparison that is still
      undetermined has been touched. */
  ghost predicate PlannedUpTo(s: Select, n: nat, plans: seq<Plan>, cmps: seq<Cmp>) {
    && n <= |s.tables| == |plans|
    && SameUpToSwap(s.cmps, cmps)
    && (forall j :: 0 <= j < n ==> IsPlan(s, j, plans[j]))
    && (forall j :: 0 <= j < n ==> CondsNormalized(s.cmps, cmps, plans[j].endConds, s.tables[j].id))
    && (forall k :: 0 <= k < |cmps| && !CmpDeterminedBefore(s.cmps[k], s.tables, n) ==> cmps[k] == s.cmps[k])
  }

  /** The column list, the copy flags and the indirections of the i-th table are what the query needs. */
  ghost predicate ColumnsClassified(selectList: seq<Exp>, cond: Cond, cmps: seq<Cmp>, tables: seq<Table>, i: nat,
                                    p: Plan, copyVal: map<nat, bool>, indirection: map<nat, nat>)
    requires i < |tables| && LeavesIn(cond, |cmps|)
  {
    Classified(ColumnsIn(p, copyVal, indirection), NodeSet(AllNodes(selectList, cond, cmps)),
               CopiedCols(selectList, cond, cmps, tables, i), tables[i].id, p.path.index)
  }

  ghost predicate ClassifiedUpTo(selectList: seq<Exp>, cond: Cond, cmps: seq<Cmp>, tables: seq<Table>, n: nat,
                                 plans: seq<Plan>, copyVal: map<nat, bool>, indirection: map<nat, nat>)
    requires n <= |tables| == |plans| && LeavesIn(cond, |cmps|)
  {
    forall j :: 0 <= j < n ==>
      ColumnsClassified(selectList, cond, cmps, tables, j, plans[j], copyVal, indirection)
  }

  /** The parser leaves every node with an address of its own and no indirection. */
  ghost predicate NodesReady(selectList: seq<Exp>, cond: Cond, cmps: seq<Cmp>, indirection: map<nat, nat>)
    requires LeavesIn(cond, |cmps|)
  {
    && Addressed(NodeSet(AllNodes(selectList, cond, cmps)))
    && forall n :: n in AllNodes(selectList, cond, cmps) ==> n.id !in indirection
  }

  /** What a plan array entry holds before it is filled in. */
  const UNUSED_PLAN := Plan(Path(Table(0, 0, []), Index([], 0, false), true, [], 0, CurGE, false), [], [], [], false)

  /** The conjuncts sorted into empty lists make the access path a plan, with enough end conditions. */
  lemma SortedConds(s: Select, i: nat, p: Plan)
    requires s.Valid() && i < |s.tables| && IsAccessPath(s, i, p.path) && IsBest(s, i, p.path.index)
    ensures p.path.nExactMatch <= |p.path.tupleExps| && Below(Leaves(s.cond), |s.cmps|)
    ensures LeavesIn(s.cond, |s.cmps|) && p.path.table == s.tables[i]
    ensures var q := WithConds(s, i, p.(endConds := [], otherConds := []), Leaves(s.cond));
      && IsPlan(s, i, q) && q == p.(endConds := q.endConds, otherConds := q.otherConds)
      && |q.endConds| >= q.path.nExactMatch && NoDuplicates(q.endConds) && Below(q.endConds, |s.cmps|)
  {
    hide CanRank, Classify;
    BestIsIndex(s, i, p.path.index);
    PlannedFacts(s, i, p.path);
    EnoughEndConds(s, i, p.path);
    OfClassMembers(s, i, p.path, s.cmps, Leaves(s.cond), EndCond);
    OfClassBelow(s, i, p.path, s.cmps, Leaves(s.cond), EndCond);
  }

  lemma OtherTablesForeign(nodes: seq<Exp>, t: nat, u: nat)
    requires Addressed(NodeSet(nodes)) && t != u
    ensures forall n :: n in nodes && n.Column? && n.table == t ==> Foreign(n.id, nodes, u)
  {
    forall n | n in nodes && n.Column? && n.table == t ensures Foreign(n.id, nodes, u) {
      assert n in NodeSet(nodes) && forall m :: m in nodes ==> m in NodeSet(nodes);
    }
  }

  /** End conditions of an earlier table are determined before the i-th one. */
  lemma EndCondsDetermined(s: Select, j: nat, p: Plan, i: nat)
    requires s.Valid() && IsPlan(s, j, p) && j < i <= |s.tables|
    ensures forall k :: k in p.endConds ==> k < |s.cmps| && CmpDeterminedBefore(s.cmps[k], s.tables, i)
  {
    BestIsIndex(s, j, p.path.index);
    PlannedFacts(s, j, p.path);
    LeavesBelow(s.cond, |s.cmps|);
    OfClassMembers(s, j, p.path, s.cmps, Leaves(s.cond), EndCond);
    OfClassBelow(s, j, p.path, s.cmps, Leaves(s.cond), EndCond);
    forall k | k in p.endConds ensures k < |s.cmps| && CmpDeterminedBefore(s.cmps[k], s.tables, i) {
      EndCondClaimed(s, j, p.path, k);
      CmpDeterminedMonotone(s.cmps[k], s.tables, j + 1, i);
    }
  }

  /** Normalizing the end conditions of the i-th table touches comparisons no earlier table claimed. */
  lemma NormalizedStep(s: Select, i: nat, p: Plan, a: seq<Cmp>, b: seq<Cmp>)
    requires s.Valid() && IsPlan(s, i, p) && SameUpToSwap(s.cmps, a) && |b| == |a|
    requires forall k :: 0 <= k < |a| && !CmpDeterminedBefore(s.cmps[k], s.tables, i) ==> a[k] == s.cmps[k]
    requires forall k :: 0 <= k < |b| ==> b[k] == if k in p.endConds then Normalized(a[k], s.tables[i].id) else a[k]
    ensures SameUpToSwap(s.cmps, b)
    ensures CondsNormalized(s.cmps, b, p.endConds, s.tables[i].id)
    ensures forall k :: 0 <= k < |b| && !CmpDeterminedBefore(s.cmps[k], s.tables, i + 1) ==> b[k] == s.cmps[k]
    ensures forall k :: 0 <= k < |b| && CmpDeterminedBefore(s.cmps[k], s.tables, i) ==> b[k] == a[k]
  {
    BestIsIndex(s, i, p.path.index);
    PlannedFacts(s, i, p.path);
    LeavesBelow(s.cond, |s.cmps|);
    OfClassMembers(s, i, p.path, s.cmps, Leaves(s.cond), EndCond);
    OfClassBelow(s, i, p.path, s.cmps, Leaves(s.cond), EndCond);
    forall k | k in p.endConds
      ensures k < |b| && CmpDeterminedBefore(s.cmps[k], s.tables, i + 1) && !CmpDeterminedBefore(s.cmps[k], s.tables, i)
    {
      EndCondClaimed(s, i, p.path, k);
    }
    forall k | 0 <= k < |b| && !CmpDeterminedBefore(s.cmps[k], s.tables, i + 1) ensures b[k] == s.cmps[k] {
      if CmpDeterminedBefore(s.cmps[k], s.tables, i) {
        CmpDeterminedMonotone(s.cmps[k], s.tables, i, i + 1);
      }
    }
  }

  lemma PlannedStep(s: Select, i: nat, plans: seq<Plan>, cmps: seq<Cmp>, plans': seq<Plan>, cmps': seq<Cmp>)
    requires s.Valid() && i < |s.tables| && PlannedUpTo(s, i, plans, cmps)
    requires |plans'| == |plans| && forall j :: 0 <= j < i ==> plans'[j] == plans[j]
    requires IsPlan(s.(cmps := cmps), i, plans'[i])
    requires NormalizedIn(cmps, cmps', plans'[i].endConds, s.tables[i].id)
    ensures PlannedUpTo(s, i + 1, plans', cmps')
  {
    PlanSwapped(s, cmps, i, plans'[i]);
    NormalizedStep(s, i, plans'[i], cmps, cmps');
    forall j | 0 <= j < i ensures CondsNormalized(s.cmps, cmps', plans'[j].endConds, s.tables[j].id) {
      assert CondsNormalized(s.cmps, cmps, plans[j].endConds, s.tables[j].id);
      EndCondsDetermined(s, j, plans[j], i);
    }
  }

  lemma NothingPlanned(s: Select, plans: seq<Plan>)
    requires |plans| == |s.tables|
    ensures PlannedUpTo(s, 0, plans, s.cmps)
  {
  }

  lemma SameNodes(a: seq<Exp>, b: seq<Exp>)
    requires NodeSet(a) == NodeSet(b)
    ensures forall n :: n in a <==> n in b
  {
    assert forall n :: n in a <==> n in NodeSet(a);
    assert forall n :: n in b <==> n in NodeSet(b);
  }

  lemma PlannedReady(s: Select, plans: seq<Plan>, cmps: seq<Cmp>, selectList: seq<Exp>, indirection: map<nat, nat>)
    requires s.Valid() && PlannedUpTo(s, |s.tables|, plans, cmps) && NodesReady(selectList, s.cond, s.cmps, indirection)
    ensures LeavesIn(s.cond, |cmps|) && |plans| == |s.tables|
    ensures NodesReady(selectList, s.cond, cmps, indirection)
    ensures forall i :: 0 <= i < |s.tables| ==> plans[i].path.table == s.tables[i]
  {
    CopiedSwapped(selectList, s.cond, s.cmps, cmps, s.tables, 0);
    SameNodes(AllNodes(selectList, s.cond, cmps), AllNodes(selectList, s.cond, s.cmps));
    forall i | 0 <= i < |s.tables| ensures plans[i].path.table == s.tables[i] {
      assert IsPlan(s, i, plans[i]);
    }
  }

  lemma SamePlan(s: Select, i: nat, p: Plan, q: Plan)
    requires IsPlan(s, i, p) && q == p.(columns := q.columns, mustGetClust := q.mustGetClust)
    ensures IsPlan(s, i, q) && q.endConds == p.endConds
  {
    hide IsAccessPath, IsBest;
  }

  lemma ColumnsDoNotMatter(s: Select, n: nat, plans: seq<Plan>, plans': seq<Plan>, cmps: seq<Cmp>)
    requires PlannedUpTo(s, n, plans, cmps) && |plans'| == |plans|
    requires forall j :: 0 <= j < n ==>
               plans'[j] == plans[j].(columns := plans'[j].columns, mustGetClust := plans'[j].mustGetClust)
    ensures PlannedUpTo(s, n, plans', cmps)
  {
    hide IsPlan, CondsNormalized, CmpDeterminedBefore;
    forall j | 0 <= j < n ensures IsPlan(s, j, plans'[j]) && plans'[j].endConds == plans[j].endConds {
      SamePlan(s, j, plans[j], plans'[j]);
    }
  }

  lemma ClassifiedStep(selectList: seq<Exp>, cond: Cond, cmps: seq<Cmp>, tables: seq<Table>, i: nat,
                       plans: seq<Plan>, copyVal: map<nat, bool>, indirection: map<nat, nat>,
                       plans': seq<Plan>, copyVal': map<nat, bool>, indirection': map<nat, nat>)
    requires i < |tables| == |plans| == |plans'| && LeavesIn(cond, |cmps|)
    requires forall i, j :: 0 <= i < j < |tables| ==> tables[i].id != tables[j].id
    requires Addressed(NodeSet(AllNodes(selectList, cond, cmps)))
    requires ClassifiedUpTo(selectList, cond, cmps, tables, i, plans, copyVal, indirection)
    requires ColumnsClassified(selectList, cond, cmps, tables, i, plans'[i], copyVal', indirection')
    requires forall j :: 0 <= j < i ==> plans'[j] == plans[j]
    requires forall id :: Foreign(id, AllNodes(selectList, cond, cmps), tables[i].id) ==>
               SameFields(ColumnsIn(plans[i], copyVal, indirection), ColumnsIn(plans'[i], copyVal', indirection'), id)
    ensures ClassifiedUpTo(selectList, cond, cmps, tables, i + 1, plans', copyVal', indirection')
  {
    var nodes := AllNodes(selectList, cond, cmps);
    forall j | 0 <= j < i
      ensures ColumnsClassified(selectList, cond, cmps, tables, j, plans'[j], copyVal', indirection')
    {
      var a, b := ColumnsIn(plans[j], copyVal, indirection), ColumnsIn(plans'[j], copyVal', indirection');
      assert ColumnsClassified(selectList, cond, cmps, tables, j, plans[j], copyVal, indirection);
      OtherTablesForeign(nodes, tables[j].id, tables[i].id);
      forall n | n in NodeSet(nodes) && n.Column? && n.table == tables[j].id ensures SameFields(a, b, n.id) {
        assert Foreign(n.id, nodes, tables[i].id);
        assert SameFields(ColumnsIn(plans[i], copyVal, indirection), ColumnsIn(plans'[i], copyVal', indirection'), n.id);
      }
      ClassifiedFrame(a, b, NodeSet(nodes), CopiedCols(selectList, cond, cmps, tables, j), tables[j].id,
                      plans[j].path.index);
    }
  }

  /** sel_node_struct and the parse tree below it. The addresses of nodes are keys of the symbol fields. */
  class SelNode {
    const tables: seq<Table>
    const selectList: seq<Exp>
    const cond: Cond
    const orderBy: Option<OrderBy>
    var cmps: seq<Cmp>
    var asc: bool
    var plans: seq<Plan>
    var copyVal: map<nat, bool>
    var indirection: map<nat, nat>

    constructor (tables: seq<Table>, selectList: seq<Exp>, cond: Cond, cmps: seq<Cmp>, orderBy: Option<OrderBy>)
      ensures this.tables == tables && this.selectList == selectList && this.cond == cond
      ensures this.cmps == cmps && this.orderBy == orderBy
      ensures plans == [] && copyVal == map[] && indirection == map[]
    {
      this.tables, this.selectList, this.cond, this.orderBy := tables, selectList, cond, orderBy;
      this.cmps, this.asc, this.plans, this.copyVal, this.indirection := cmps, true, [], map[], map[];
    }

    ghost function View(): Select
      reads this
    {
      Select(tables, cond, cmps, asc)
    }

    /** opt_calc_index_goodness: scores an index and records the expressions it would be searched with. */
    method CalcIndexGoodness(index: Index, i: nat, indexPlan: array<Exp>, op: CmpOp)
      returns (goodness: nat, lastOp: CmpOp)
      requires View().Valid() && CanRank(View(), i, index) && indexPlan.Length == 128
      modifies indexPlan
      ensures goodness == Goodness(View(), i, index)
      ensures |TupleExps(View(), i, index)| <= 128
      ensures indexPlan[..|TupleExps(View(), i, index)|] == TupleExps(View(), i, index)
      ensures TupleExps(View(), i, index) != [] ==> lastOp == LastOp(View(), i, index)
    {
      hide TupleExps;
      ghost var s := View();
      goodness, lastOp := 0, op;
      var nFields := index.NUniqueInTree();
      ExactRunIsMaximal(s, i, index, 0);
      var j := 0;
      while j < nFields
        invariant j <= nFields && goodness == 4 * j
        invariant ExactRun(s, i, index, 0) == j + ExactRun(s, i, index, j)
        invariant forall k :: 0 <= k < j ==> indexPlan[k] == LookCol(Equal, s, i, index, k).value.0
        invariant j > 0 ==> lastOp == Eq
        decreases nFields - j
      {
        var colNo := index.fields[j];
        var exp := LookInCond(Equal, colNo, cond, Select(tables, cond, cmps, asc), i);
        if exp.Some? {
          ghost var k := LookFinds(Equal, colNo, cond, s, i);
          indexPlan[j], lastOp := exp.value.0, exp.value.1;
          goodness := goodness + 4;
        } else {
          exp := LookInCond(Comparison, colNo, cond, Select(tables, cond, cmps, asc), i);
          if exp.Some? {
            indexPlan[j], lastOp := exp.value.0, exp.value.1;
            goodness := goodness + 2;
          }
          break;
        }
        j := j + 1;
      }
      assert NExact(s, i, index) == j;
      if goodness >= 4 * index.nUnique {
        goodness := goodness + 1024;
        if index.clustered {
          goodness := goodness + 1024;
        }
      }
      if index.clustered {
        goodness := goodness + 1;
      }
      RecordedExps(s, i, index, indexPlan[..]);
      assert indexPlan[..|TupleExps(s, i, index)|] == indexPlan[..][..|TupleExps(s, i, index)|];
    }
  
    /** opt_search_plan_for_table, first part: the best index, with its search expressions. */
    method ChooseIndex(i: nat)
      returns (best: Index, bestGoodness: nat, bestLastOp: CmpOp, bestIndexPlan: array<Exp>)
      requires View().Valid() && i < |tables|
      ensures IsBest(View(), i, best) && bestGoodness == Goodness(View(), i, best)
      ensures fresh(bestIndexPlan) && |TupleExps(View(), i, best)| <= bestIndexPlan.Length
      ensures bestIndexPlan[..|TupleExps(View(), i, best)|] == TupleExps(View(), i, best)
      ensures TupleExps(View(), i, best) != [] ==> bestLastOp == LastOp(View(), i, best)
    {
      hide TupleExps, Goodness, LastOp, LeavesIn, Leads;
      ghost var s := View();
      var table := tables[i];
      assert table in tables && table.Valid();
      assert forall ix :: ix in table.indexes ==> CanRank(s, i, ix);
      hide s.Valid, CanRank, IsBest;
      var indexPlan := new Exp[128];
      bestIndexPlan := new Exp[128];
      best := table.indexes[0];
      var lastOp := Eq;
      bestGoodness, bestLastOp := 0, Eq;
      ghost var b := 0;
      NobodyLeads(s, i, bestIndexPlan[..]);
      var k := 0;
      while k < |table.indexes|
        invariant k <= |table.indexes| && fresh(indexPlan) && fresh(bestIndexPlan) && indexPlan != bestIndexPlan
        invariant bestIndexPlan.Length == 128
        invariant Leads(s, i, k, b, best, bestGoodness, bestLastOp, bestIndexPlan[..])
      {
        var index := table.indexes[k];
        assert index in table.indexes;
        var goodness;
        goodness, lastOp := CalcIndexGoodness(index, i, indexPlan, lastOp);
        if goodness > bestGoodness {
          var nFields := NFieldsFromGoodness(goodness);
          GoodnessDecodes(s, i, index);
          ghost var before := bestIndexPlan[..];
          CopyPlan(indexPlan, bestIndexPlan, nFields);
          NewLeader(s, i, k, b, best, bestGoodness, bestLastOp, before, goodness, lastOp, bestIndexPlan[..]);
          best, bestGoodness, bestLastOp, b := index, goodness, lastOp, k;
        } else {
          SameLeader(s, i, k, b, best, bestGoodness, bestLastOp, bestIndexPlan[..]);
        }
        k := k + 1;
      }
      LeaderIsBest(s, i, b, best, bestGoodness, bestLastOp, bestIndexPlan[..]);
    }

    method CopyPlan(from: array<Exp>, to: array<Exp>, n: nat)
      requires n <= from.Length && n <= to.Length && from != to
      modifies to
      ensures to[..n] == from[..n]
    {
      forall m | 0 <= m < n {
        to[m] := from[m];
      }
    }

    /** opt_search_plan_for_table: settles on the best index and builds the search tuple for it. */
    method SearchPlanForTable(i: nat)
      requires View().Valid() && i < |tables| == |plans|
      modifies this`plans
      ensures |plans| == |tables|
      ensures plans == old(plans)[i := old(plans)[i].(path := plans[i].path)]
      ensures IsAccessPath(View(), i, plans[i].path) && IsBest(View(), i, plans[i].path.index)
    {
      hide TupleExps, Goodness, LastOp, LeavesIn, RangeAt, BestAt;
      ghost var s := View();
      var table := tables[i];
      var best, bestGoodness, bestLastOp, bestIndexPlan := ChooseIndex(i);
      GoodnessDecodes(s, i, best);
      LastOpUsable(s, i, best);
      TupleLength(s, i, best);
      var nFields := NFieldsFromGoodness(bestGoodness);
      var tupleExps, nExact, mode := [], 0, CurGE;
      if nFields > 0 {
        tupleExps := bestIndexPlan[..nFields];
        nExact := if bestLastOp == Eq then nFields else nFields - 1;
        mode := OpToSearchMode(asc, bestLastOp);
      }
      var unique := best.clustered && nExact >= best.nUnique;
      plans := plans[i := plans[i].(path := Path(table, best, asc, tupleExps, nExact, mode, unique))];
    }

    /** opt_find_test_conds: appends the conjuncts of `c` to the lists of the i-th plan. */
    method FindTestConds(i: nat, c: Cond)
      requires i < |tables| == |plans| && LeavesIn(c, |cmps|)
      requires plans[i].path.nExactMatch <= |plans[i].path.tupleExps|
      modifies this`plans
      ensures |plans| == |tables| && Below(Leaves(c), |cmps|)
      ensures plans == old(plans)[i := WithConds(View(), i, old(plans)[i], Leaves(c))]
      decreases c
    {
      LeavesBelow(c, |cmps|);
      match c
      case NoCond =>
        WithCondsConcat(View(), i, plans[i], [], []);
      case And(l, r) =>
        LeavesBelow(l, |cmps|);
        LeavesBelow(r, |cmps|);
        WithCondsConcat(View(), i, plans[i], Leaves(l), Leaves(r));
        FindTestConds(i, l);
        FindTestConds(i, r);
      case Leaf(k) =>
        WithOneCond(View(), i, plans[i], k);
        var cl := Classify(Select(tables, cond, cmps, asc), i, plans[i].path, cmps[k]);
        if cl == EndCond {
          plans := plans[i := plans[i].(endConds := plans[i].endConds + [k])];
        } else if cl == TestCond {
          plans := plans[i := plans[i].(otherConds := plans[i].otherConds + [k])];
        }
    }

    /** opt_normalize_cmp_conds: puts the column of the table on the left of each listed comparison. */
    method NormalizeCmpConds(conds: seq<nat>, table: nat)
      requires NoDuplicates(conds) && Below(conds, |cmps|)
      modifies this`cmps
      ensures NormalizedIn(old(cmps), cmps, conds, table)
    {
      var n := 0;
      while n < |conds|
        invariant n <= |conds| && NormalizedIn(old(cmps), cmps, conds[..n], table)
      {
        var c := cmps[conds[n]];
        assert conds[n] !in conds[..n];
        if c.right.Column? && c.right.table == table {
          cmps := cmps[conds[n] := Cmp(Invert(c.op), c.right, c.left)];
        }
        n := n + 1;
      }
      assert conds[..n] == conds;
    }
  
    /** opt_determine_and_normalize_test_conds. */
    method DetermineAndNormalizeTestConds(i: nat)
      requires View().Valid() && i < |tables| == |plans|
      requires IsAccessPath(View(), i, plans[i].path) && IsBest(View(), i, plans[i].path.index)
      modifies this`plans, this`cmps
      ensures CondsDetermined(old(View()), i, old(plans), plans, cmps)
    {
      hide CanRank, IsBest, LeavesIn, IsAccessPath, IsPlan, WithConds, NoDuplicates, NormalizedIn, Below, Leaves;
      ghost var s := View();
      SortedConds(s, i, plans[i]);
      plans := plans[i := plans[i].(endConds := [], otherConds := [])];
      FindTestConds(i, cond);
      NormalizeCmpConds(plans[i].endConds, plans[i].path.table.id);
    }

    ghost function ColumnsOf(i: nat): Columns
      requires i < |plans|
      reads this
    {
      Columns(plans[i].columns, plans[i].mustGetClust, copyVal, indirection)
    }

    /** opt_find_all_cols: visits the column nodes of an expression. */
    method FindAllCols(copy: bool, i: nat, e: Exp)
      requires i < |plans| && AllColumns(plans[i].columns)
      modifies this`plans, this`copyVal, this`indirection
      ensures |plans| == |old(plans)| && AllColumns(plans[i].columns)
      ensures plans == old(plans)[i := old(plans)[i].(columns := plans[i].columns, mustGetClust := plans[i].mustGetClust)]
      ensures ColumnsOf(i) == VisitAll(old(ColumnsOf(i)), Occurrences(e), copy, plans[i].path.table.id, plans[i].path.index)
      decreases e
    {
      var index, table := plans[i].path.index, plans[i].path.table.id;
      match e
      case Value(_, _) =>
        assert plans == plans[i := plans[i]];
      case Func(_, _, args) =>
        var k := 0;
        assert args[..0] == [];
        while k < |args|
          invariant k <= |args| && |plans| == |old(plans)| && AllColumns(plans[i].columns)
          invariant plans == old(plans)[i := old(plans)[i].(columns := plans[i].columns, mustGetClust := plans[i].mustGetClust)]
          invariant ColumnsOf(i) == VisitAll(old(ColumnsOf(i)), OccurrencesIn(args[..k]), copy, table, index)
        {
          OccurrencesInAppend(args[..k], args[k]);
          assert args[..k + 1] == args[..k] + [args[k]];
          VisitConcat(old(ColumnsOf(i)), OccurrencesIn(args[..k]), Occurrences(args[k]), copy, table, index);
          FindAllCols(copy, i, args[k]);
          k := k + 1;
        }
        assert args[..k] == args;
      case Column(id, t, col) =>
        assert plans == plans[i := plans[i]];
        if t == table {
          var entry := FindCol(plans[i].columns, col);
          if entry.Some? {
            if entry.value != e {
              indirection := indirection[id := entry.value.id];
            }
          } else {
            var p := plans[i].(columns := plans[i].columns + [e]);
            copyVal := copyVal[id := copy];
            if !index.clustered && col !in index.fields {
              p := p.(mustGetClust := true);
            }
            plans := plans[i := p];
          }
        }
    }
  
    /** opt_find_all_cols applied to a search condition: down through the AND nodes. */
    method FindAllColsInCond(copy: bool, i: nat, c: Cond)
      requires i < |plans| && AllColumns(plans[i].columns) && LeavesIn(c, |cmps|)
      modifies this`plans, this`copyVal, this`indirection
      ensures |plans| == |old(plans)| && AllColumns(plans[i].columns)
      ensures plans == old(plans)[i := old(plans)[i].(columns := plans[i].columns, mustGetClust := plans[i].mustGetClust)]
      ensures ColumnsOf(i) == VisitAll(old(ColumnsOf(i)), OccurrencesInCond(c, cmps), copy, plans[i].path.table.id,
                                       plans[i].path.index)
      decreases c
    {
      ghost var st, table, index := ColumnsOf(i), plans[i].path.table.id, plans[i].path.index;
      match c
      case NoCond =>
        assert plans == plans[i := plans[i]];
      case And(l, r) =>
        VisitConcat(st, OccurrencesInCond(l, cmps), OccurrencesInCond(r, cmps), copy, table, index);
        FindAllColsInCond(copy, i, l);
        FindAllColsInCond(copy, i, r);
      case Leaf(k) =>
        VisitConcat(st, Occurrences(cmps[k].left), Occurrences(cmps[k].right), copy, table, index);
        FindAllCols(copy, i, cmps[k].left);
        FindAllCols(copy, i, cmps[k].right);
    }

    /** opt_find_copy_cols: the columns in conjuncts that cannot be tested at the i-th table must be copied. */
    method FindCopyCols(i: nat, c: Cond)
      requires i < |plans| == |tables| && AllColumns(plans[i].columns) && LeavesIn(c, |cmps|)
      modifies this`plans, this`copyVal, this`indirection
      ensures |plans| == |old(plans)| && AllColumns(plans[i].columns)
      ensures plans == old(plans)[i := old(plans)[i].(columns := plans[i].columns, mustGetClust := plans[i].mustGetClust)]
      ensures ColumnsOf(i) == VisitAll(old(ColumnsOf(i)), UndeterminedOccurrences(c, cmps, tables, i), true,
                                       plans[i].path.table.id, plans[i].path.index)
      decreases c
    {
      ghost var st, table, index := ColumnsOf(i), plans[i].path.table.id, plans[i].path.index;
      match c
      case NoCond =>
        assert plans == plans[i := plans[i]];
      case And(l, r) =>
        VisitConcat(st, UndeterminedOccurrences(l, cmps, tables, i), UndeterminedOccurrences(r, cmps, tables, i), true,
                    table, index);
        FindCopyCols(i, l);
        FindCopyCols(i, r);
      case Leaf(k) =>
        if CmpDeterminedBefore(cmps[k], tables, i + 1) {
          assert plans == plans[i := plans[i]];
        } else {
          FindAllColsInCond(true, i, c);
        }
    }

    /** opt_classify_cols: lists the columns to fetch from the i-th table. */
    method ClassifyCols(i: nat)
      requires i < |plans| == |tables| && LeavesIn(cond, |cmps|) && plans[i].path.table == tables[i]
      requires Addressed(NodeSet(AllNodes(selectList, cond, cmps)))
      requires forall n :: n in AllNodes(selectList, cond, cmps) && n.Column? && n.table == tables[i].id ==>
                 n.id !in indirection
      modifies this`plans, this`copyVal, this`indirection
      ensures |plans| == |old(plans)|
      ensures plans == old(plans)[i := old(plans)[i].(columns := plans[i].columns, mustGetClust := plans[i].mustGetClust)]
      ensures ColumnsClassified(selectList, cond, cmps, tables, i, plans[i], copyVal, indirection)
      ensures forall id :: Foreign(id, AllNodes(selectList, cond, cmps), tables[i].id) ==>
                SameFields(old(ColumnsOf(i)), ColumnsOf(i), id)
    {
      hide Classified, VisitAll, Addressed, NodeSet, Foreign, OccurrencesIn, UndeterminedOccurrences;
      hide OccurrencesInCond, CopiedCols, LeavesIn;
      plans := plans[i := plans[i].(columns := [], mustGetClust := false)];
      ghost var st, index := ColumnsOf(i), plans[i].path.index;
      FindSelectListCols(i);
      FindCopyCols(i, cond);
      FindAllColsInCond(false, i, cond);
      ThreePassesClassify(st, selectList, cond, cmps, tables, i, index);
      PassesTouch(st, selectList, cond, cmps, tables, i, index);
    }

    /** opt_classify_cols, the loop over the select list: all its columns are copied. */
    method FindSelectListCols(i: nat)
      requires i < |plans| && AllColumns(plans[i].columns)
      modifies this`plans, this`copyVal, this`indirection
      ensures |plans| == |old(plans)| && AllColumns(plans[i].columns)
      ensures plans == old(plans)[i := old(plans)[i].(columns := plans[i].columns, mustGetClust := plans[i].mustGetClust)]
      ensures ColumnsOf(i) == VisitAll(old(ColumnsOf(i)), OccurrencesIn(selectList), true, plans[i].path.table.id,
                                       plans[i].path.index)
    {
      ghost var st, table, index := ColumnsOf(i), plans[i].path.table.id, plans[i].path.index;
      var k := 0;
      while k < |selectList|
        invariant k <= |selectList| && |plans| == |old(plans)| && AllColumns(plans[i].columns)
        invariant plans == old(plans)[i := old(plans)[i].(columns := plans[i].columns, mustGetClust := plans[i].mustGetClust)]
        invariant ColumnsOf(i) == VisitAll(st, OccurrencesIn(selectList[..k]), true, table, index)
      {
        OccurrencesInAppend(selectList[..k], selectList[k]);
        assert selectList[..k + 1] == selectList[..k] + [selectList[k]];
        VisitConcat(st, OccurrencesIn(selectList[..k]), Occurrences(selectList[k]), true, table, index);
        FindAllCols(true, i, selectList[k]);
        k := k + 1;
      }
      assert selectList[..k] == selectList;
    }

    /** opt_search_plan, body of the first loop. `s0` is the select node before any planning. */
    method PlanTable(i: nat, ghost s0: Select)
      requires s0.Valid() && View() == s0.(cmps := cmps)
      requires i < |tables| && PlannedUpTo(s0, i, plans, cmps)
      modifies this`plans, this`cmps
      ensures PlannedUpTo(s0, i + 1, plans, cmps)
    {
      ghost var plans1, cmps1 := plans, cmps;
      SwappedValid(s0, cmps);
      SearchPlanForTable(i);
      DetermineAndNormalizeTestConds(i);
      PlannedStep(s0, i, plans1, cmps1, plans, cmps);
    }

    /** opt_search_plan, first loop: an access path and the test conditions for every table in FROM order. */
    method PlanTables()
      requires View().Valid()
      modifies this`plans, this`cmps
      ensures PlannedUpTo(old(View()), |tables|, plans, cmps)
    {
      hide PlannedUpTo;
      ghost var s0 := View();
      plans := seq(|tables|, _ => UNUSED_PLAN);
      NothingPlanned(s0, plans);
      var i := 0;
      while i < |tables|
        invariant i <= |tables| && PlannedUpTo(s0, i, plans, cmps)
      {
        PlanTable(i, s0);
        i := i + 1;
      }
    }

    /** opt_search_plan, second loop: the columns to fetch from every table. */
    method ClassifyAllCols()
      requires LeavesIn(cond, |cmps|) && |plans| == |tables|
      requires forall i :: 0 <= i < |tables| ==> plans[i].path.table == tables[i]
      requires forall i, j :: 0 <= i < j < |tables| ==> tables[i].id != tables[j].id
      requires NodesReady(selectList, cond, cmps, indirection)
      modifies this`plans, this`copyVal, this`indirection
      ensures |plans| == |tables|
      ensures forall i :: 0 <= i < |tables| ==>
                plans[i] == old(plans)[i].(columns := plans[i].columns, mustGetClust := plans[i].mustGetClust)
      ensures ClassifiedUpTo(selectList, cond, cmps, tables, |tables|, plans, copyVal, indirection)
    {
      ghost var nodes := AllNodes(selectList, cond, cmps);
      var i := 0;
      while i < |tables|
        invariant i <= |tables| == |plans|
        invariant forall j :: 0 <= j < |tables| ==>
          plans[j] == old(plans)[j].(columns := plans[j].columns, mustGetClust := plans[j].mustGetClust)
        invariant ClassifiedUpTo(selectList, cond, cmps, tables, i, plans, copyVal, indirection)
        invariant forall n :: n in nodes && n.Column? && (forall j :: 0 <= j < i ==> tables[j].id != n.table) ==>
          n.id !in indirection
      {
        ghost var plans1, copyVal1, indirection1 := plans, copyVal, indirection;
        ClassifyCols(i);
        ClassifiedStep(selectList, cond, cmps, tables, i, plans1, copyVal1, indirection1, plans, copyVal, indirection);
        forall n | n in nodes && n.Column? && (forall j :: 0 <= j < i + 1 ==> tables[j].id != n.table)
          ensures n.id !in indirection
        {
          OtherTablesForeign(nodes, n.table, tables[i].id);
          assert SameFields(ColumnsIn(plans1[i], copyVal1, indirection1), ColumnsOf(i), n.id);
        }
        i := i + 1;
      }
    }

    /** opt_search_plan. `ok` is false when the source would stop on the ORDER BY assertion. */
    method SearchPlan() returns (ok: bool)
      requires View().Valid() && NodesReady(selectList, cond, cmps, indirection)
      modifies this
      ensures asc == (orderBy.None? || orderBy.value.asc)
      ensures LeavesIn(cond, |cmps|)
      ensures PlannedUpTo(Select(tables, cond, old(cmps), asc), |tables|, plans, cmps)
      ensures ClassifiedUpTo(selectList, cond, cmps, tables, |tables|, plans, copyVal, indirection)
      ensures ok == OrderByOk(orderBy, tables, plans)
    {
      hide PlannedUpTo, ClassifiedUpTo, OrderByOk, NodesReady, IsPlan;
      if orderBy.None? {
        asc := true;
      } else {
        asc := orderBy.value.asc;
      }
      ghost var s := View();
      PlanTables();
      ghost var plans1 := plans;
      PlannedReady(s, plans, cmps, selectList, indirection);
      ClassifyAllCols();
      ColumnsDoNotMatter(s, |tables|, plans1, plans, cmps);
      ok := OrderByOk(orderBy, tables, plans);
    }
  }
}
