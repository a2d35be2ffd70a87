/** How well an index serves the nth table, and what the chosen access path looks like. */
module AccessPath {
  import opened Wrappers
  import opened Query
  import opened Lookup

  datatype SearchMode = CurG | CurGE | CurL | CurLE

  /** The fields of plan_struct that say how the cursor is positioned and which way it runs. An empty
      `tupleExps` is a NULL search tuple. */
  datatype Path = Path(table: Table, index: Index, asc: bool, tupleExps: seq<Exp>, nExactMatch: nat,
                       mode: SearchMode, uniqueSearch: bool)

  /** plan_struct; the two condition lists hold comparison numbers. */
  datatype Plan = Plan(path: Path, endConds: seq<nat>, otherConds: seq<nat>, columns: seq<Exp>, mustGetClust: bool)

  function LookCol(ct: CmpType, s: Select, i: nat, ix: Index, j: nat): Option<(Exp, CmpOp)>
    requires i < |s.tables| && LeavesIn(s.cond, |s.cmps|) && j < |ix.fields|
  {
    LookInCond(ct, ix.fields[j], s.cond, s, i)
  }

  ghost predicate CanRank(s: Select, i: nat, ix: Index) {
    && i < |s.tables| && LeavesIn(s.cond, |s.cmps|)
    && 1 <= ix.nUnique <= |ix.fields| <= 128
  }

  /** How many fields from the j-th on are known exactly, without a gap. */
  function ExactRun(s: Select, i: nat, ix: Index, j: nat): nat
    requires CanRank(s, i, ix) && j <= ix.NUniqueInTree()
    decreases ix.NUniqueInTree() - j
  {
    if j == ix.NUniqueInTree() || LookCol(Equal, s, i, ix, j).None? then 0
    else 1 + ExactRun(s, i, ix, j + 1)
  }

  function NExact(s: Select, i: nat, ix: Index): nat
    requires CanRank(s, i, ix)
  {
    ExactRun(s, i, ix, 0)
  }

  lemma {:induction false} ExactRunIsMaximal(s: Select, i: nat, ix: Index, j: nat)
    requires CanRank(s, i, ix) && j <= ix.NUniqueInTree()
    ensures j + ExactRun(s, i, ix, j) <= ix.NUniqueInTree()
    ensures forall k :: j <= k < j + ExactRun(s, i, ix, j) ==> LookCol(Equal, s, i, ix, k).Some?
    ensures j + ExactRun(s, i, ix, j) < ix.NUniqueInTree() ==>
              LookCol(Equal, s, i, ix, j + ExactRun(s, i, ix, j)).None?
    decreases ix.NUniqueInTree() - j
  {
    if j < ix.NUniqueInTree() && LookCol(Equal, s, i, ix, j).Some? {
      ExactRunIsMaximal(s, i, ix, j + 1);
    }
  }

  /** The restriction on the first field that is not known exactly, if it can limit the scan. */
  function RangeAt(s: Select, i: nat, ix: Index): Option<(Exp, CmpOp)>
    requires CanRank(s, i, ix)
  {
    ExactRunIsMaximal(s, i, ix, 0);
    if NExact(s, i, ix) < ix.NUniqueInTree() then LookCol(Comparison, s, i, ix, NExact(s, i, ix)) else None
  }

  function TupleExps(s: Select, i: nat, ix: Index): (r: seq<Exp>)
    requires CanRank(s, i, ix)
    ensures |r| == NExact(s, i, ix) + (if RangeAt(s, i, ix).Some? then 1 else 0)
  {
    ExactRunIsMaximal(s, i, ix, 0);
    seq(NExact(s, i, ix), j requires 0 <= j < NExact(s, i, ix) => LookCol(Equal, s, i, ix, j).value.0)
    + (if RangeAt(s, i, ix).Some? then [RangeAt(s, i, ix).value.0] else [])
  }

  /** The expressions recorded field by field are the search tuple. */
  lemma RecordedExps(s: Select, i: nat, ix: Index, plan: seq<Exp>)
    requires CanRank(s, i, ix) && |plan| == 128
    requires forall j :: 0 <= j < NExact(s, i, ix) && j < ix.NUniqueInTree() ==>
               LookCol(Equal, s, i, ix, j).Some? ==> plan[j] == LookCol(Equal, s, i, ix, j).value.0
    requires RangeAt(s, i, ix).Some? && NExact(s, i, ix) < 128 ==> plan[NExact(s, i, ix)] == RangeAt(s, i, ix).value.0
    ensures |TupleExps(s, i, ix)| <= 128 && plan[..|TupleExps(s, i, ix)|] == TupleExps(s, i, ix)
  {
    ExactRunIsMaximal(s, i, ix, 0);
  }

  function LastOp(s: Select, i: nat, ix: Index): CmpOp
    requires CanRank(s, i, ix)
  {
    if RangeAt(s, i, ix).Some? then RangeAt(s, i, ix).value.1 else Eq
  }

  /** The documented score: 4 for an exactly known field, 2 for a range on the next one, 1024 when every
      unique field is known and 1024 more if the index is also clustered, 1 for a clustered index. */
  function Goodness(s: Select, i: nat, ix: Index): nat
    requires CanRank(s, i, ix)
  {
    4 * NExact(s, i, ix)
    + (if RangeAt(s, i, ix).Some? then 2 else 0)
    + (if NExact(s, i, ix) >= ix.nUnique then (if ix.clustered then 2048 else 1024) else 0)
    + (if ix.clustered then 1 else 0)
  }

  function NFieldsFromGoodness(goodness: nat): nat {
    (goodness % 1024 + 2) / 4
  }

  /** Unpacking the score gives back the number of matched fields. */
  lemma GoodnessDecodes(s: Select, i: nat, ix: Index)
    requires CanRank(s, i, ix)
    ensures NFieldsFromGoodness(Goodness(s, i, ix)) == |TupleExps(s, i, ix)|
    ensures (Goodness(s, i, ix) >= 1024) <==> (NExact(s, i, ix) >= ix.nUnique)
  {
    ExactRunIsMaximal(s, i, ix, 0);
    var e := NExact(s, i, ix);
    var low := 4 * e + (if RangeAt(s, i, ix).Some? then 2 else 0) + (if ix.clustered then 1 else 0);
    assert low < 1024;
    assert Goodness(s, i, ix) % 1024 == low;
    if RangeAt(s, i, ix).Some? {
      assert (low + 2) / 4 == e + 1;
    } else {
      assert (low + 2) / 4 == e;
    }
  }

  /** opt_op_to_search_mode; the source asserts that the operator suits the direction. */
  function OpToSearchMode(asc: bool, op: CmpOp): SearchMode
    requires Usable(asc, op)
  {
    match op
    case Eq => if asc then CurGE else CurLE
    case Lt => CurL
    case Gt => CurG
    case Ge => CurGE
    case Le => CurLE
  }

  lemma LastOpUsable(s: Select, i: nat, ix: Index)
    requires CanRank(s, i, ix)
    ensures Usable(s.asc, LastOp(s, i, ix))
    ensures RangeAt(s, i, ix).Some? <==> LastOp(s, i, ix) != Eq
  {
    ExactRunIsMaximal(s, i, ix, 0);
    if RangeAt(s, i, ix).Some? {
      var k := LookFinds(Comparison, ix.fields[NExact(s, i, ix)], s.cond, s, i);
    }
  }

  /** An index without points has no search expressions. */
  lemma NothingScored(s: Select, i: nat, ix: Index)
    requires CanRank(s, i, ix)
    ensures |TupleExps(s, i, ix)| <= 128
    ensures Goodness(s, i, ix) == 0 ==> TupleExps(s, i, ix) == []
  {
    ExactRunIsMaximal(s, i, ix, 0);
  }

  lemma TupleLength(s: Select, i: nat, ix: Index)
    requires CanRank(s, i, ix)
    ensures |TupleExps(s, i, ix)| == NExact(s, i, ix) + if LastOp(s, i, ix) != Eq then 1 else 0
  {
    LastOpUsable(s, i, ix);
  }

  /** `p` is the access path opt_search_plan_for_table settles on for the i-th table. */
  ghost predicate IsAccessPath(s: Select, i: nat, p: Path) {
    && i < |s.tables|
    && p.table == s.tables[i]
    && p.asc == s.asc
    && CanRank(s, i, p.index)
    && p.tupleExps == TupleExps(s, i, p.index)
    && p.nExactMatch == NExact(s, i, p.index)
    && Usable(s.asc, LastOp(s, i, p.index))
    && (p.tupleExps != [] ==> p.mode == OpToSearchMode(s.asc, LastOp(s, i, p.index)))
    && (p.uniqueSearch <==> p.index.clustered && p.nExactMatch >= p.index.nUnique)
  }

  ghost predicate AllRank(s: Select, i: nat) {
    i < |s.tables| && forall ix :: ix in s.tables[i].indexes ==> CanRank(s, i, ix)
  }

  /** Every field that tells rows apart is known exactly. */
  predicate FullyMatched(s: Select, i: nat, ix: Index)
    requires CanRank(s, i, ix)
  {
    NExact(s, i, ix) >= ix.nUnique
  }

  /** The order of preference: an index whose unique fields are all known, a clustered one first; then more exactly known
      fields; then a range on the next field; then a clustered index. */
  ghost predicate Better(s: Select, i: nat, a: Index, b: Index)
    requires CanRank(s, i, a) && CanRank(s, i, b)
  {
    var fa, fb := FullyMatched(s, i, a), FullyMatched(s, i, b);
    var ra, rb := RangeAt(s, i, a).Some?, RangeAt(s, i, b).Some?;
    if fa != fb then fa
    else if fa && a.clustered != b.clustered then a.clustered
    else if NExact(s, i, a) != NExact(s, i, b) then NExact(s, i, a) > NExact(s, i, b)
    else if ra != rb then ra
    else a.clustered && !b.clustered
  }

  /** The packed scores are ordered by preference. */
  lemma GoodnessRanks(s: Select, i: nat, a: Index, b: Index)
    requires CanRank(s, i, a) && CanRank(s, i, b)
    ensures Goodness(s, i, a) > Goodness(s, i, b) <==> Better(s, i, a, b)
  {
    ExactRunIsMaximal(s, i, a, 0);
    ExactRunIsMaximal(s, i, b, 0);
  }

  ghost predicate BestAt(s: Select, i: nat, best: Index, b: nat)
    requires AllRank(s, i)
  {
    var indexes := s.tables[i].indexes;
    && b < |indexes|
    && indexes[b] == best
    && (forall j :: 0 <= j < |indexes| ==> !Better(s, i, indexes[j], best))
    && (forall j :: 0 <= j < b ==> Better(s, i, best, indexes[j]))
  }

  /** No index is preferred to the chosen one, and it is preferred to all before it. */
  ghost predicate IsBest(s: Select, i: nat, best: Index) {
    && AllRank(s, i)
    && CanRank(s, i, best)
    && exists b :: BestAt(s, i, best, b)
  }

  /** What the choice means for any other index of the table. */
  lemma ChosenOverOthers(s: Select, i: nat, best: Index, ix: Index)
    requires IsBest(s, i, best) && ix in s.tables[i].indexes
    ensures FullyMatched(s, i, ix) ==> FullyMatched(s, i, best)
    ensures FullyMatched(s, i, ix) && ix.clustered ==> best.clustered
    ensures (FullyMatched(s, i, best) ==> FullyMatched(s, i, ix) && (best.clustered ==> ix.clustered)) ==>
              NExact(s, i, ix) <= NExact(s, i, best)
    ensures !FullyMatched(s, i, best) && NExact(s, i, ix) == NExact(s, i, best) && RangeAt(s, i, ix).Some? ==>
              RangeAt(s, i, best).Some?
    ensures !FullyMatched(s, i, best) && NExact(s, i, ix) == NExact(s, i, best) && ix.clustered ==>
              best.clustered || (RangeAt(s, i, best).Some? && RangeAt(s, i, ix).None?)
  {
    hide NExact, RangeAt, CanRank;
    var b :| BestAt(s, i, best, b);
    var j :| 0 <= j < |s.tables[i].indexes| && s.tables[i].indexes[j] == ix;
    assert !Better(s, i, s.tables[i].indexes[j], best);
  }

  // ----- the search for the best index

  /** The plan and operator that opt_calc_index_goodness records for an index. */
  ghost predicate Records(s: Select, i: nat, ix: Index, op: CmpOp, plan: seq<Exp>)
    requires CanRank(s, i, ix)
  {
    var exps := TupleExps(s, i, ix);
    |exps| <= |plan| && plan[..|exps|] == exps && (exps != [] ==> op == LastOp(s, i, ix))
  }

  /** Among the first k indexes, number b scores highest and is the first to do so; the plan and operator
      belong to it. As long as nothing scores, the first index leads. */
  ghost predicate Leads(s: Select, i: nat, k: nat, b: nat, best: Index, g: nat, op: CmpOp, plan: seq<Exp>)
    requires AllRank(s, i)
  {
    var indexes := s.tables[i].indexes;
    && k <= |indexes| && b < |indexes| && best == indexes[b] && (b == 0 || b < k)
    && (g == 0 ==> b == 0)
    && (forall j :: 0 <= j < k ==> Goodness(s, i, indexes[j]) <= g)
    && (forall j :: 0 <= j < b ==> Goodness(s, i, indexes[j]) < g)
    && (g > 0 ==> g == Goodness(s, i, best) && Records(s, i, best, op, plan))
  }

  lemma NobodyLeads(s: Select, i: nat, plan: seq<Exp>)
    requires AllRank(s, i) && s.tables[i].indexes != []
    ensures Leads(s, i, 0, 0, s.tables[i].indexes[0], 0, Eq, plan)
  {
  }

  lemma SameLeader(s: Select, i: nat, k: nat, b: nat, best: Index, g: nat, op: CmpOp, plan: seq<Exp>)
    requires AllRank(s, i) && Leads(s, i, k, b, best, g, op, plan)
    requires k < |s.tables[i].indexes| && Goodness(s, i, s.tables[i].indexes[k]) <= g
    ensures Leads(s, i, k + 1, b, best, g, op, plan)
  {
    hide CanRank, Goodness, Records;
  }

  lemma NewLeader(s: Select, i: nat, k: nat, b: nat, best: Index, g: nat, op: CmpOp, plan: seq<Exp>,
                  g': nat, op': CmpOp, plan': seq<Exp>)
    requires AllRank(s, i) && Leads(s, i, k, b, best, g, op, plan) && k < |s.tables[i].indexes| && g' > g
    requires g' == Goodness(s, i, s.tables[i].indexes[k]) && Records(s, i, s.tables[i].indexes[k], op', plan')
    ensures Leads(s, i, k + 1, k, s.tables[i].indexes[k], g', op', plan')
  {
    hide CanRank, Goodness, Records;
  }

  lemma LeaderIsBest(s: Select, i: nat, b: nat, best: Index, g: nat, op: CmpOp, plan: seq<Exp>)
    requires AllRank(s, i) && Leads(s, i, |s.tables[i].indexes|, b, best, g, op, plan)
    ensures IsBest(s, i, best) && g == Goodness(s, i, best) && Records(s, i, best, op, plan)
  {
    hide CanRank, Goodness, TupleExps, Better;
    NothingScored(s, i, best);
    var indexes := s.tables[i].indexes;
    forall j | 0 <= j < |indexes| ensures Better(s, i, indexes[j], best) <==> Goodness(s, i, indexes[j]) > Goodness(s, i, best)
      ensures Better(s, i, best, indexes[j]) <==> Goodness(s, i, best) > Goodness(s, i, indexes[j])
    {
      GoodnessRanks(s, i, indexes[j], best);
      GoodnessRanks(s, i, best, indexes[j]);
    }
    assert BestAt(s, i, best, b);
  }

  lemma BestIsIndex(s: Select, i: nat, best: Index)
    requires IsBest(s, i, best)
    ensures best in s.tables[i].indexes
  {
  }

  datatype Class = NotCond | EndCond | TestCond | ScrollCond

  predicate IsArg(e: Exp, c: Cmp) {
    e.id == c.left.id || e.id == c.right.id
  }

  /** A limit, on the first field that is not matched exactly, from the side the scan runs towards. */
  predicate LimitsFarEnd(s: Select, i: nat, p: Path, c: Cmp)
    requires i < |s.tables|
  {
    && |p.index.fields| > p.nExactMatch
    && var limit := LookInComparison(Comparison, p.index.fields[p.nExactMatch], c, s.tables, i);
       limit.Some? && !Usable(s.asc, limit.value.1)
  }

  /** opt_classify_comparison: can, and need, the comparison be tested after the i-th table is accessed? */
  function Classify(s: Select, i: nat, p: Path, c: Cmp): Class
    requires i < |s.tables| && p.nExactMatch <= |p.tupleExps|
  {
    var n := |p.tupleExps|;
    if !CmpDeterminedBefore(c, s.tables, i + 1) then NotCond
    else if i > 0 && CmpDeterminedBefore(c, s.tables, i) then NotCond
    else if exists j :: 0 <= j < p.nExactMatch && IsArg(p.tupleExps[j], c) then EndCond
    else if n > p.nExactMatch && IsArg(p.tupleExps[n - 1], c) then ScrollCond
    else if LimitsFarEnd(s, i, p, c) then EndCond
    else TestCond
  }

  /** The leaves, in order, that fall in the given class. */
  ghost function OfClass(s: Select, i: nat, p: Path, cmps: seq<Cmp>, leaves: seq<nat>, cl: Class): seq<nat>
    requires i < |s.tables| && p.nExactMatch <= |p.tupleExps|
    requires Below(leaves, |cmps|)
  {
    if leaves == [] then []
    else (if Classify(s, i, p, cmps[leaves[0]]) == cl then [leaves[0]] else [])
         + OfClass(s, i, p, cmps, leaves[1..], cl)
  }

  lemma {:induction false} OfClassMembers(s: Select, i: nat, p: Path, cmps: seq<Cmp>, leaves: seq<nat>, cl: Class)
    requires i < |s.tables| && p.nExactMatch <= |p.tupleExps|
    requires Below(leaves, |cmps|)
    ensures forall k :: k in OfClass(s, i, p, cmps, leaves, cl) <==>
              k in leaves && Classify(s, i, p, cmps[k]) == cl
    ensures NoDuplicates(leaves) ==> NoDuplicates(OfClass(s, i, p, cmps, leaves, cl))
  {
    hide Classify;
    if leaves != [] {
      OfClassMembers(s, i, p, cmps, leaves[1..], cl);
      assert leaves == [leaves[0]] + leaves[1..];
    }
  }

  lemma {:induction false} OfClassBelow(s: Select, i: nat, p: Path, cmps: seq<Cmp>, leaves: seq<nat>, cl: Class)
    requires i < |s.tables| && p.nExactMatch <= |p.tupleExps| && Below(leaves, |cmps|)
    ensures Below(OfClass(s, i, p, cmps, leaves, cl), |cmps|)
  {
    hide Classify;
    if leaves != [] {
      OfClassBelow(s, i, p, cmps, leaves[1..], cl);
    }
  }

  lemma {:induction false} OfClassConcat(s: Select, i: nat, p: Path, cmps: seq<Cmp>, a: seq<nat>, b: seq<nat>, cl: Class)
    requires i < |s.tables| && p.nExactMatch <= |p.tupleExps|
    requires Below(a, |cmps|) && Below(b, |cmps|)
    ensures OfClass(s, i, p, cmps, a + b, cl) == OfClass(s, i, p, cmps, a, cl) + OfClass(s, i, p, cmps, b, cl)
  {
    hide Classify;
    if a == [] {
      assert a + b == b;
    } else {
      var rest := OfClass(s, i, p, cmps, a[1..], cl);
      assert OfClass(s, i, p, cmps, a[1..] + b, cl) == rest + OfClass(s, i, p, cmps, b, cl) by {
        OfClassConcat(s, i, p, cmps, a[1..], b, cl);
      }
      assert (a + b)[1..] == a[1..] + b;
      assert (a + b)[0] == a[0];
    }
  }

  /** The plan with the given conjuncts sorted into its two lists. */
  ghost function WithConds(s: Select, i: nat, p: Plan, leaves: seq<nat>): Plan
    requires i < |s.tables| && p.path.nExactMatch <= |p.path.tupleExps| && Below(leaves, |s.cmps|)
  {
    p.(endConds := p.endConds + OfClass(s, i, p.path, s.cmps, leaves, EndCond),
       otherConds := p.otherConds + OfClass(s, i, p.path, s.cmps, leaves, TestCond))
  }

  lemma WithCondsConcat(s: Select, i: nat, p: Plan, a: seq<nat>, b: seq<nat>)
    requires i < |s.tables| && p.path.nExactMatch <= |p.path.tupleExps|
    requires Below(a, |s.cmps|) && Below(b, |s.cmps|)
    ensures WithConds(s, i, WithConds(s, i, p, a), b) == WithConds(s, i, p, a + b)
    ensures WithConds(s, i, p, []) == p
  {
    hide Classify;
    OfClassConcat(s, i, p.path, s.cmps, a, b, EndCond);
    OfClassConcat(s, i, p.path, s.cmps, a, b, TestCond);
  }

  lemma WithOneCond(s: Select, i: nat, p: Plan, k: nat)
    requires i < |s.tables| && p.path.nExactMatch <= |p.path.tupleExps| && k < |s.cmps|
    ensures WithConds(s, i, p, [k]) ==
            match Classify(s, i, p.path, s.cmps[k]) {
              case EndCond => p.(endConds := p.endConds + [k])
              case TestCond => p.(otherConds := p.otherConds + [k])
              case _ => p
            }
  {
    var cl := Classify(s, i, p.path, s.cmps[k]);
    assert OfClass(s, i, p.path, s.cmps, [k], EndCond) == if cl == EndCond then [k] else [];
    assert OfClass(s, i, p.path, s.cmps, [k], TestCond) == if cl == TestCond then [k] else [];
    assert p.endConds + [] == p.endConds && p.otherConds + [] == p.otherConds;
  }

  /** `p` is the plan of the i-th table: best index, its access path, and the conjuncts to test, in order. */
  ghost predicate IsPlan(s: Select, i: nat, p: Plan) {
    && IsAccessPath(s, i, p.path)
    && IsBest(s, i, p.path.index)
    && Below(Leaves(s.cond), |s.cmps|)
    && p.endConds == OfClass(s, i, p.path, s.cmps, Leaves(s.cond), EndCond)
    && p.otherConds == OfClass(s, i, p.path, s.cmps, Leaves(s.cond), TestCond)
  }

  // ----- swapping the arguments of comparisons is invisible to the planner

  ghost predicate SameUpToSwap(a: seq<Cmp>, b: seq<Cmp>) {
    |a| == |b| && forall k :: 0 <= k < |a| ==> b[k] == a[k] || b[k] == Swap(a[k])
  }

  lemma SwappedValid(s: Select, b: seq<Cmp>)
    requires s.Valid() && SameUpToSwap(s.cmps, b)
    ensures s.(cmps := b).Valid()
  {
  }

  lemma {:induction false} LookInCondSwapped(ct: CmpType, col: nat, cond: Cond, s: Select, b: seq<Cmp>, i: nat)
    requires s.Valid() && SameUpToSwap(s.cmps, b) && i < |s.tables| && LeavesIn(cond, |s.cmps|)
    ensures LookInCond(ct, col, cond, s.(cmps := b), i) == LookInCond(ct, col, cond, s, i)
  {
    match cond
    case NoCond =>
    case And(l, r) =>
      LookInCondSwapped(ct, col, l, s, b, i);
      LookInCondSwapped(ct, col, r, s, b, i);
    case Leaf(k) =>
      LookSwapped(ct, col, s.cmps[k], s.tables, i);
  }

  lemma {:induction false} ExactRunSwapped(s: Select, b: seq<Cmp>, i: nat, ix: Index, j: nat)
    requires s.Valid() && SameUpToSwap(s.cmps, b) && CanRank(s, i, ix) && j <= ix.NUniqueInTree()
    ensures ExactRun(s.(cmps := b), i, ix, j) == ExactRun(s, i, ix, j)
    decreases ix.NUniqueInTree() - j
  {
    if j < ix.NUniqueInTree() {
      LookInCondSwapped(Equal, ix.fields[j], s.cond, s, b, i);
      if LookCol(Equal, s, i, ix, j).Some? {
        ExactRunSwapped(s, b, i, ix, j + 1);
      }
    }
  }

  lemma RankSwapped(s: Select, b: seq<Cmp>, i: nat, ix: Index)
    requires s.Valid() && SameUpToSwap(s.cmps, b) && CanRank(s, i, ix)
    ensures NExact(s.(cmps := b), i, ix) == NExact(s, i, ix)
    ensures RangeAt(s.(cmps := b), i, ix) == RangeAt(s, i, ix)
    ensures TupleExps(s.(cmps := b), i, ix) == TupleExps(s, i, ix)
    ensures Goodness(s.(cmps := b), i, ix) == Goodness(s, i, ix)
  {
    var s' := s.(cmps := b);
    ExactRunSwapped(s, b, i, ix, 0);
    ExactRunIsMaximal(s, i, ix, 0);
    if NExact(s, i, ix) < ix.NUniqueInTree() {
      LookInCondSwapped(Comparison, ix.fields[NExact(s, i, ix)], s.cond, s, b, i);
    }
    forall j | 0 <= j < NExact(s, i, ix) ensures LookCol(Equal, s', i, ix, j) == LookCol(Equal, s, i, ix, j) {
      LookInCondSwapped(Equal, ix.fields[j], s.cond, s, b, i);
    }
  }

  lemma ClassifySwapped(s: Select, b: seq<Cmp>, i: nat, p: Path, k: nat)
    requires s.Valid() && SameUpToSwap(s.cmps, b)
    requires i < |s.tables| && p.nExactMatch <= |p.tupleExps| && k < |s.cmps|
    ensures Classify(s.(cmps := b), i, p, b[k]) == Classify(s, i, p, s.cmps[k])
  {
    if |p.index.fields| > p.nExactMatch {
      LookSwapped(Comparison, p.index.fields[p.nExactMatch], s.cmps[k], s.tables, i);
    }
  }

  lemma {:induction false} OfClassSwapped(s: Select, b: seq<Cmp>, i: nat, p: Path, leaves: seq<nat>, cl: Class)
    requires s.Valid() && SameUpToSwap(s.cmps, b)
    requires i < |s.tables| && p.nExactMatch <= |p.tupleExps| && Below(leaves, |s.cmps|)
    ensures OfClass(s.(cmps := b), i, p, b, leaves, cl) == OfClass(s, i, p, s.cmps, leaves, cl)
  {
    if leaves != [] {
      ClassifySwapped(s, b, i, p, leaves[0]);
      OfClassSwapped(s, b, i, p, leaves[1..], cl);
    }
  }

  /** A plan made from the swapped comparisons is the plan made from the original ones. */
  lemma PlanSwapped(s: Select, b: seq<Cmp>, i: nat, p: Plan)
    requires s.Valid() && SameUpToSwap(s.cmps, b)
    requires IsPlan(s.(cmps := b), i, p)
    ensures IsPlan(s, i, p)
  {
    var s' := s.(cmps := b);
    RankSwapped(s, b, i, p.path.index);
    forall ix | ix in s.tables[i].indexes
      ensures CanRank(s, i, ix) && NExact(s', i, ix) == NExact(s, i, ix) && RangeAt(s', i, ix) == RangeAt(s, i, ix)
    {
      assert CanRank(s', i, ix);
      RankSwapped(s, b, i, ix);
    }
    var n :| BestAt(s', i, p.path.index, n);
    assert BestAt(s, i, p.path.index, n);
    OfClassSwapped(s, b, i, p.path, Leaves(s.cond), EndCond);
    OfClassSwapped(s, b, i, p.path, Leaves(s.cond), TestCond);
  }
}
