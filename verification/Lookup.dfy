/** The read-only half of the optimizer: what a condition says about a column before a table is accessed. */
module Lookup {
  import opened Wrappers
  import opened Query

  datatype CmpType = Equal | Comparison

  ghost predicate NoDuplicates<T>(s: seq<T>) {
    forall i, j :: 0 <= i < j < |s| ==> s[i] != s[j]
  }

  /** Every argument node of a comparison has an address of its own. */
  ghost predicate DistinctNodes(cmps: seq<Cmp>) {
    && (forall k :: 0 <= k < |cmps| ==> cmps[k].left.id != cmps[k].right.id)
    && (forall k, m :: 0 <= k < m < |cmps| ==>
          && cmps[k].left.id != cmps[m].left.id && cmps[k].left.id != cmps[m].right.id
          && cmps[k].right.id != cmps[m].left.id && cmps[k].right.id != cmps[m].right.id)
  }

  /** pars_resolve_exp_columns: every column belongs to a FROM table and is a user column of it. */
  predicate Resolved(e: Exp, tables: seq<Table>)
    decreases e, 1
  {
    match e
    case Func(_, _, args) => AllResolved(args, tables)
    case Column(_, t, c) => exists i :: 0 <= i < |tables| && tables[i].id == t && c < tables[i].nUserCols
    case Value(_, _) => true
  }

  /** What the optimizer reads of a select node: the FROM tables in order, the search condition and the
      fetch direction. */
  datatype Select = Select(tables: seq<Table>, cond: Cond, cmps: seq<Cmp>, asc: bool) {
    ghost predicate Valid() {
      && tables != []
      && (forall t :: t in tables ==> t.Valid())
      && (forall i, j :: 0 <= i < j < |tables| ==> tables[i].id != tables[j].id)
      && LeavesIn(cond, |cmps|)
      && NoDuplicates(Leaves(cond))
      && (forall k :: 0 <= k < |cmps| ==> Resolved(cmps[k].left, tables) && Resolved(cmps[k].right, tables))
      && DistinctNodes(cmps)
    }
  }

  predicate AllResolved(args: seq<Exp>, tables: seq<Table>)
    decreases args, 0
  {
    args == [] || (Resolved(args[0], tables) && AllResolved(args[1..], tables))
  }

  function Invert(op: CmpOp): CmpOp {
    match op
    case Lt => Gt
    case Gt => Lt
    case Eq => Eq
    case Le => Ge
    case Ge => Le
  }

  function Swap(c: Cmp): Cmp {
    Cmp(Invert(c.op), c.right, c.left)
  }

  lemma SwapKeepsMeaning(c: Cmp, env: Env, F: Functions)
    ensures CmpHolds(Swap(c), env, F) <==> CmpHolds(c, env, F)
    ensures Swap(Swap(c)) == c
  {
  }

  /** Can the value be calculated before the nth table is accessed? */
  predicate DeterminedBefore(e: Exp, tables: seq<Table>, nth: nat)
    requires nth <= |tables|
    decreases e, 1
  {
    match e
    case Func(_, _, args) => AllDeterminedBefore(args, tables, nth)
    case Column(_, t, _) => exists i :: 0 <= i < nth && tables[i].id == t
    case Value(_, _) => true
  }

  predicate AllDeterminedBefore(args: seq<Exp>, tables: seq<Table>, nth: nat)
    requires nth <= |tables|
    decreases args, 0
  {
    args == [] || (DeterminedBefore(args[0], tables, nth) && AllDeterminedBefore(args[1..], tables, nth))
  }

  predicate CmpDeterminedBefore(c: Cmp, tables: seq<Table>, nth: nat)
    requires nth <= |tables|
  {
    DeterminedBefore(c.left, tables, nth) && DeterminedBefore(c.right, tables, nth)
  }

  predicate IsColumn(e: Exp, table: nat, col: nat) {
    e.Column? && e.table == table && e.col == col
  }

  /** The expression a comparison compares the column with, and the operator with the column on its left. */
  function LookInComparison(ct: CmpType, col: nat, c: Cmp, tables: seq<Table>, nth: nat): Option<(Exp, CmpOp)>
    requires nth < |tables|
  {
    if ct.Equal? != c.op.Eq? then None
    else if IsColumn(c.left, tables[nth].id, col) && DeterminedBefore(c.right, tables, nth) then Some((c.right, c.op))
    else if IsColumn(c.right, tables[nth].id, col) && DeterminedBefore(c.left, tables, nth) then
      Some((c.left, Invert(c.op)))
    else None
  }

  /** An ascending fetch has no use for an upper limit, a descending one none for a lower limit. */
  predicate Usable(asc: bool, op: CmpOp) {
    if asc then !(op.Lt? || op.Le?) else !(op.Gt? || op.Ge?)
  }

  function LookInCond(ct: CmpType, col: nat, cond: Cond, s: Select, nth: nat): Option<(Exp, CmpOp)>
    requires nth < |s.tables| && LeavesIn(cond, |s.cmps|)
  {
    match cond
    case NoCond => None
    case And(l, r) =>
      var first := LookInCond(ct, col, l, s, nth);
      if first.Some? then first else LookInCond(ct, col, r, s, nth)
    case Leaf(k) =>
      var found := LookInComparison(ct, col, s.cmps[k], s.tables, nth);
      if found.Some? && Usable(s.asc, found.value.1) then found else None
  }

  // ----- what the look-ups guarantee

  lemma {:induction false} DeterminedMonotone(e: Exp, tables: seq<Table>, m: nat, n: nat)
    requires m <= n <= |tables|
    requires DeterminedBefore(e, tables, m)
    ensures DeterminedBefore(e, tables, n)
    decreases e, 1
  {
    if e.Func? {
      AllDeterminedMonotone(e.args, tables, m, n);
    }
  }

  lemma {:induction false} AllDeterminedMonotone(args: seq<Exp>, tables: seq<Table>, m: nat, n: nat)
    requires m <= n <= |tables|
    requires AllDeterminedBefore(args, tables, m)
    ensures AllDeterminedBefore(args, tables, n)
    decreases args, 0
  {
    if args != [] {
      DeterminedMonotone(args[0], tables, m, n);
      AllDeterminedMonotone(args[1..], tables, m, n);
    }
  }

  lemma {:induction false} ResolvedIsDetermined(e: Exp, tables: seq<Table>)
    requires Resolved(e, tables)
    ensures DeterminedBefore(e, tables, |tables|)
    decreases e, 1
  {
    if e.Func? {
      AllResolvedIsDetermined(e.args, tables);
    }
  }

  lemma {:induction false} AllResolvedIsDetermined(args: seq<Exp>, tables: seq<Table>)
    requires AllResolved(args, tables)
    ensures AllDeterminedBefore(args, tables, |tables|)
    decreases args, 0
  {
    if args != [] {
      ResolvedIsDetermined(args[0], tables);
      AllResolvedIsDetermined(args[1..], tables);
    }
  }

  /** Two environments that give the first n tables the same rows. */
  ghost predicate Agree(tables: seq<Table>, n: nat, a: Env, b: Env)
    requires n <= |tables|
  {
    forall i :: 0 <= i < n ==>
      (tables[i].id in a <==> tables[i].id in b) && (tables[i].id in a ==> a[tables[i].id] == b[tables[i].id])
  }

  /** A determined expression has the same value whatever rows the later tables supply. */
  lemma {:induction false} DeterminedValue(e: Exp, tables: seq<Table>, n: nat, a: Env, b: Env, F: Functions)
    requires n <= |tables| && DeterminedBefore(e, tables, n) && Agree(tables, n, a, b)
    ensures Eval(e, a, F) == Eval(e, b, F)
    decreases e, 1
  {
    if e.Func? {
      DeterminedValues(e.args, tables, n, a, b, F);
    }
  }

  lemma {:induction false} DeterminedValues(args: seq<Exp>, tables: seq<Table>, n: nat, a: Env, b: Env, F: Functions)
    requires n <= |tables| && AllDeterminedBefore(args, tables, n) && Agree(tables, n, a, b)
    ensures EvalArgs(args, a, F) == EvalArgs(args, b, F)
    decreases args, 0
  {
    if args != [] {
      DeterminedValue(args[0], tables, n, a, b, F);
      DeterminedValues(args[1..], tables, n, a, b, F);
    }
  }

  lemma CmpDeterminedValue(c: Cmp, tables: seq<Table>, n: nat, a: Env, b: Env, F: Functions)
    requires n <= |tables| && CmpDeterminedBefore(c, tables, n) && Agree(tables, n, a, b)
    ensures CmpHolds(c, a, F) <==> CmpHolds(c, b, F)
  {
    DeterminedValue(c.left, tables, n, a, b, F);
    DeterminedValue(c.right, tables, n, a, b, F);
  }

  /** No column of the nth table can be calculated before that table is accessed. */
  lemma OwnColumnUndetermined(e: Exp, tables: seq<Table>, nth: nat)
    requires nth < |tables| && forall i :: 0 <= i < nth ==> tables[i].id != tables[nth].id
    requires e.Column? && e.table == tables[nth].id
    ensures !DeterminedBefore(e, tables, nth)
    ensures DeterminedBefore(e, tables, nth + 1)
  {
  }

  /** The result of a look-up: the comparison says exactly `column op expression`. */
  lemma ComparisonMeaning(ct: CmpType, col: nat, c: Cmp, tables: seq<Table>, nth: nat, env: Env, F: Functions)
    requires nth < |tables| && LookInComparison(ct, col, c, tables, nth).Some?
    ensures var (e, op) := LookInComparison(ct, col, c, tables, nth).value;
      && (ct.Equal? <==> op.Eq?)
      && DeterminedBefore(e, tables, nth)
      && (e == c.left || e == c.right)
      && (CmpHolds(c, env, F) <==>
          Compare(op, Eval(Column(0, tables[nth].id, col), env, F), Eval(e, env, F)))
  {
  }

  /** A comparison that gives a value for a column is claimed by that column's table and by no earlier one. */
  lemma LookedUpIsClaimed(ct: CmpType, col: nat, c: Cmp, tables: seq<Table>, nth: nat)
    requires nth < |tables| && forall i :: 0 <= i < nth ==> tables[i].id != tables[nth].id
    requires LookInComparison(ct, col, c, tables, nth).Some?
    ensures CmpDeterminedBefore(c, tables, nth + 1)
    ensures !CmpDeterminedBefore(c, tables, nth)
  {
    if IsColumn(c.left, tables[nth].id, col) && DeterminedBefore(c.right, tables, nth) {
      OwnColumnUndetermined(c.left, tables, nth);
      DeterminedMonotone(c.right, tables, nth, nth + 1);
    } else {
      OwnColumnUndetermined(c.right, tables, nth);
      DeterminedMonotone(c.left, tables, nth, nth + 1);
    }
  }

  /** Swapping the arguments of a comparison is invisible to every look-up. */
  lemma LookSwapped(ct: CmpType, col: nat, c: Cmp, tables: seq<Table>, nth: nat)
    requires nth < |tables| && forall i :: 0 <= i < nth ==> tables[i].id != tables[nth].id
    ensures LookInComparison(ct, col, Swap(c), tables, nth) == LookInComparison(ct, col, c, tables, nth)
  {
  }

  /** A look-up in a conjunction finds something iff some conjunct offers it, and returns what one offers. */
  lemma {:induction false} LookFinds(ct: CmpType, col: nat, cond: Cond, s: Select, nth: nat) returns (k: nat)
    requires nth < |s.tables| && LeavesIn(cond, |s.cmps|)
    ensures LookInCond(ct, col, cond, s, nth).Some? ==>
      && k in Leaves(cond) && k < |s.cmps|
      && LookInCond(ct, col, cond, s, nth) == LookInComparison(ct, col, s.cmps[k], s.tables, nth)
      && Usable(s.asc, LookInCond(ct, col, cond, s, nth).value.1)
    ensures LookInCond(ct, col, cond, s, nth).None? ==>
      forall m :: m in Leaves(cond) && m < |s.cmps| ==>
        var found := LookInComparison(ct, col, s.cmps[m], s.tables, nth);
        found.None? || !Usable(s.asc, found.value.1)
  {
    k := 0;
    match cond
    case NoCond =>
    case Leaf(m) =>
      k := m;
    case And(l, r) =>
      k := LookFinds(ct, col, l, s, nth);
      if LookInCond(ct, col, l, s, nth).None? {
        k := LookFinds(ct, col, r, s, nth);
      }
  }
}
