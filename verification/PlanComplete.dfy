/** The optimizer's tests for what is known, and for what limits a scan, miss nothing. */
module PlanComplete {
  import opened Wrappers
  import opened Query
  import opened Lookup
  import opened AccessPath
  import opened PlanFacts

  function Sum(s: seq<int>): int {
    if s == [] then 0 else s[0] + Sum(s[1..])
  }

  /** Every function adds up its arguments. */
  function Adder(name: nat, args: seq<int>): int {
    Sum(args)
  }

  /** A row for every table from the k-th on: all v from the nth table on, all 0 before. */
  function Filled(tables: seq<Table>, k: nat, n: nat, v: int): Env
    requires k <= |tables|
    decreases |tables| - k
  {
    if k == |tables| then map[]
    else Filled(tables, k + 1, n, v)[tables[k].id := seq(tables[k].nUserCols, _ => if k >= n then v else 0)]
  }

  lemma {:induction false} FilledIs(tables: seq<Table>, k: nat, n: nat, v: int)
    requires k <= |tables| && forall i, j :: 0 <= i < j < |tables| ==> tables[i].id != tables[j].id
    ensures forall i :: k <= i < |tables| ==> tables[i].id in Filled(tables, k, n, v)
    ensures forall i :: k <= i < |tables| ==>
              Filled(tables, k, n, v)[tables[i].id] == seq(tables[i].nUserCols, _ => if i >= n then v else 0)
    decreases |tables| - k
  {
    if k < |tables| {
      FilledIs(tables, k + 1, n, v);
    }
  }

  /** Larger rows in the later tables never make a value smaller, and make an undetermined one larger. */
  lemma {:induction false} Grows(e: Exp, tables: seq<Table>, n: nat)
    requires n <= |tables| && Resolved(e, tables)
    requires forall i, j :: 0 <= i < j < |tables| ==> tables[i].id != tables[j].id
    ensures Eval(e, Filled(tables, 0, n, 0), Adder) <= Eval(e, Filled(tables, 0, n, 1), Adder)
    ensures !DeterminedBefore(e, tables, n) ==>
              Eval(e, Filled(tables, 0, n, 0), Adder) < Eval(e, Filled(tables, 0, n, 1), Adder)
    decreases e, 1
  {
    match e
    case Value(_, _) =>
    case Column(_, t, c) =>
      FilledIs(tables, 0, n, 0);
      FilledIs(tables, 0, n, 1);
      var i :| 0 <= i < |tables| && tables[i].id == t && c < tables[i].nUserCols;
    case Func(_, _, args) =>
      AllGrow(args, tables, n);
  }

  lemma {:induction false} AllGrow(args: seq<Exp>, tables: seq<Table>, n: nat)
    requires n <= |tables| && AllResolved(args, tables)
    requires forall i, j :: 0 <= i < j < |tables| ==> tables[i].id != tables[j].id
    ensures Sum(EvalArgs(args, Filled(tables, 0, n, 0), Adder)) <= Sum(EvalArgs(args, Filled(tables, 0, n, 1), Adder))
    ensures !AllDeterminedBefore(args, tables, n) ==>
              Sum(EvalArgs(args, Filled(tables, 0, n, 0), Adder)) < Sum(EvalArgs(args, Filled(tables, 0, n, 1), Adder))
    decreases args, 0
  {
    if args != [] {
      var a, b := Filled(tables, 0, n, 0), Filled(tables, 0, n, 1);
      Grows(args[0], tables, n);
      AllGrow(args[1..], tables, n);
      assert EvalArgs(args, a, Adder)[1..] == EvalArgs(args[1..], a, Adder);
      assert EvalArgs(args, b, Adder)[1..] == EvalArgs(args[1..], b, Adder);
    }
  }

  /** Is the value fixed by the rows of the first n tables, whatever the functions compute? */
  ghost predicate Fixed(e: Exp, tables: seq<Table>, n: nat)
    requires n <= |tables|
  {
    forall a: Env, b: Env, F: Functions :: Agree(tables, n, a, b) ==> Eval(e, a, F) == Eval(e, b, F)
  }

  /** An expression counts as determined before the nth table exactly when its value is fixed by then. */
  lemma DeterminedIff(e: Exp, tables: seq<Table>, n: nat)
    requires n <= |tables| && Resolved(e, tables)
    requires forall i, j :: 0 <= i < j < |tables| ==> tables[i].id != tables[j].id
    ensures DeterminedBefore(e, tables, n) <==> Fixed(e, tables, n)
  {
    if DeterminedBefore(e, tables, n) {
      forall a: Env, b: Env, F: Functions | Agree(tables, n, a, b) ensures Eval(e, a, F) == Eval(e, b, F) {
        DeterminedValue(e, tables, n, a, b, F);
      }
    } else {
      FilledIs(tables, 0, n, 0);
      FilledIs(tables, 0, n, 1);
      Grows(e, tables, n);
      var a, b, F := Filled(tables, 0, n, 0), Filled(tables, 0, n, 1), Adder;
      assert Agree(tables, n, a, b) && Eval(e, a, F) != Eval(e, b, F);
    }
  }

  /** A comparison offers something for a column exactly when it is of the right kind, the column is one side, and the
      value of the other side is fixed before the table is accessed. */
  lemma OfferedIff(ct: CmpType, col: nat, c: Cmp, tables: seq<Table>, nth: nat)
    requires nth < |tables| && Resolved(c.left, tables) && Resolved(c.right, tables)
    requires forall i, j :: 0 <= i < j < |tables| ==> tables[i].id != tables[j].id
    ensures LookInComparison(ct, col, c, tables, nth).Some? <==>
              && (ct.Equal? <==> c.op.Eq?)
              && ((IsColumn(c.left, tables[nth].id, col) && Fixed(c.right, tables, nth))
                  || (IsColumn(c.right, tables[nth].id, col) && Fixed(c.left, tables, nth)))
  {
    hide Fixed, Resolved, DeterminedBefore;
    DeterminedIff(c.left, tables, nth);
    DeterminedIff(c.right, tables, nth);
  }

  /** The range is missing only if no conjunct offers a usable limit on the field after the exact ones. */
  lemma RangeMissesNothing(s: Select, i: nat, ix: Index, m: nat)
    requires CanRank(s, i, ix) && RangeAt(s, i, ix).None?
    requires m in Leaves(s.cond) && m < |s.cmps| && NExact(s, i, ix) < ix.NUniqueInTree()
    ensures var found := LookInComparison(Comparison, ix.fields[NExact(s, i, ix)], s.cmps[m], s.tables, i);
      found.None? || !Usable(s.asc, found.value.1)
  {
    var k := LookFinds(Comparison, ix.fields[NExact(s, i, ix)], s.cond, s, i);
  }

  /** A limit on the field after the exact ones, on the side the scan runs towards, is an end condition. */
  lemma FarLimitEndsScan(s: Select, i: nat, p: Path, m: nat)
    requires Planned(s, i, p) && m < |s.cmps| && p.nExactMatch < |p.index.fields| && p.nExactMatch <= |p.tupleExps|
    requires var limit := LookInComparison(Comparison, p.index.fields[p.nExactMatch], s.cmps[m], s.tables, i);
      limit.Some? && if s.asc then limit.value.1.Lt? || limit.value.1.Le? else limit.value.1.Gt? || limit.value.1.Ge?
    ensures Classify(s, i, p, s.cmps[m]) == EndCond
  {
    PlannedFacts(s, i, p);
    LookedUpIsClaimed(Comparison, p.index.fields[p.nExactMatch], s.cmps[m], s.tables, i);
    if |p.tupleExps| > p.nExactMatch && IsArg(p.tupleExps[p.nExactMatch], s.cmps[m]) {
      LastOpUsable(s, i, p.index);
      var k := RangeSource(s, i, p);
      ArgOfOne(s, p.tupleExps[p.nExactMatch], k, m);
    }
  }

  /** The limit the cursor is positioned with is not tested again. */
  lemma PositionIsNotTested(s: Select, i: nat, p: Path) returns (k: nat)
    requires Planned(s, i, p) && |p.tupleExps| > p.nExactMatch
    ensures k in Leaves(s.cond) && k < |s.cmps| && Classify(s, i, p, s.cmps[k]) == ScrollCond
    ensures p.tupleExps[p.nExactMatch] == s.cmps[k].left || p.tupleExps[p.nExactMatch] == s.cmps[k].right
  {
    PlannedFacts(s, i, p);
    k := RangeSource(s, i, p);
    if exists j :: 0 <= j < p.nExactMatch && IsArg(p.tupleExps[j], s.cmps[k]) {
      var j :| 0 <= j < p.nExactMatch && IsArg(p.tupleExps[j], s.cmps[k]);
      var m := ExactSource(s, i, p, j);
      ArgOfOne(s, p.tupleExps[j], m, k);
    }
  }

  /** A usable offer of a conjunct. */
  predicate Offers(ct: CmpType, col: nat, s: Select, nth: nat, k: nat)
    requires nth < |s.tables|
  {
    k < |s.cmps| && var found := LookInComparison(ct, col, s.cmps[k], s.tables, nth);
      found.Some? && Usable(s.asc, found.value.1)
  }

  /** A look-up in a conjunction takes the first usable offer, from left to right. */
  lemma {:induction false} LookTakesFirst(ct: CmpType, col: nat, cond: Cond, s: Select, nth: nat) returns (j: nat)
    requires nth < |s.tables| && LeavesIn(cond, |s.cmps|)
    ensures j <= |Leaves(cond)| && forall m :: 0 <= m < j ==> !Offers(ct, col, s, nth, Leaves(cond)[m])
    ensures j == |Leaves(cond)| ==> LookInCond(ct, col, cond, s, nth).None?
    ensures j < |Leaves(cond)| ==>
              && Offers(ct, col, s, nth, Leaves(cond)[j])
              && LookInCond(ct, col, cond, s, nth) == LookInComparison(ct, col, s.cmps[Leaves(cond)[j]], s.tables, nth)
  {
    j := 0;
    match cond
    case NoCond =>
    case Leaf(k) =>
      j := if Offers(ct, col, s, nth, k) then 0 else 1;
    case And(l, r) =>
      j := LookTakesFirst(ct, col, l, s, nth);
      if j == |Leaves(l)| {
        j := LookTakesFirst(ct, col, r, s, nth);
        j := |Leaves(l)| + j;
      }
  }
}
