/** Parsed select statements: expressions, conditions, tables and indexes, and what they mean. */

module Wrappers {
  datatype Option<+T> = None | Some(value: T)
}

/** The parse tree the optimizer works on (pars0pars.h, que0types.h) and its value in an environment. */
module Query {
  import opened Wrappers

  datatype CmpOp = Lt | Gt | Eq | Le | Ge

  /** An expression node. The `id` stands for the address of the node: no two nodes share one.
      `Value` is every symbol that is not a column: literals and procedure variables. */
  datatype Exp =
    | Func(id: nat, name: nat, args: seq<Exp>)
    | Column(id: nat, table: nat, col: nat)
    | Value(id: nat, value: int)

  /** A comparison node: the operator and the two arguments, which normalization may swap. */
  datatype Cmp = Cmp(op: CmpOp, left: Exp, right: Exp)

  /** A search condition: comparisons joined by AND; `Leaf(k)` refers to the k-th comparison node. */
  datatype Cond = NoCond | And(left: Cond, right: Cond) | Leaf(k: nat)

  /** `nUnique` leading fields identify a row; `fields` are column numbers. */
  datatype Index = Index(fields: seq<nat>, nUnique: nat, clustered: bool) {
    // The fields a search tuple may use: node pointers carry a page address after them.
    function NUniqueInTree(): nat {
      if clustered then nUnique else |fields|
    }

    // dict_index_build_internal_clust puts the system columns right after the unique fields.
    ghost predicate Valid(nUserCols: nat) {
      && 1 <= nUnique <= |fields| <= 128
      && (forall i, j :: 0 <= i < j < |fields| ==> fields[i] != fields[j])
      && (clustered ==> nUnique < |fields| && fields[nUnique] >= nUserCols)
    }
  }

  datatype Table = Table(id: nat, nUserCols: nat, indexes: seq<Index>) {
    ghost predicate Valid() {
      && indexes != []
      && forall ix :: ix in indexes ==> ix.Valid(nUserCols)
    }
  }

  type Row = seq<int>
  type Env = map<nat, Row>

  /** The value of a function node: the evaluator is a parameter of the model. */
  type Functions = (nat, seq<int>) -> int

  function Eval(e: Exp, env: Env, F: Functions): int
    decreases e, 1
  {
    match e
    case Func(_, name, args) => F(name, EvalArgs(args, env, F))
    case Column(_, t, c) => if t in env && c < |env[t]| then env[t][c] else 0
    case Value(_, v) => v
  }

  function EvalArgs(args: seq<Exp>, env: Env, F: Functions): seq<int>
    decreases args, 0
  {
    if args == [] then [] else [Eval(args[0], env, F)] + EvalArgs(args[1..], env, F)
  }

  function Compare(op: CmpOp, a: int, b: int): bool {
    match op
    case Lt => a < b
    case Gt => a > b
    case Eq => a == b
    case Le => a <= b
    case Ge => a >= b
  }

  predicate CmpHolds(c: Cmp, env: Env, F: Functions) {
    Compare(c.op, Eval(c.left, env, F), Eval(c.right, env, F))
  }

  predicate CondHolds(cond: Cond, cmps: seq<Cmp>, env: Env, F: Functions)
    requires LeavesIn(cond, |cmps|)
  {
    match cond
    case NoCond => true
    case And(l, r) => CondHolds(l, cmps, env, F) && CondHolds(r, cmps, env, F)
    case Leaf(k) => CmpHolds(cmps[k], env, F)
  }

  ghost function Leaves(cond: Cond): seq<nat> {
    match cond
    case NoCond => []
    case And(l, r) => Leaves(l) + Leaves(r)
    case Leaf(k) => [k]
  }

  predicate LeavesIn(cond: Cond, n: nat) {
    match cond
    case NoCond => true
    case And(l, r) => LeavesIn(l, n) && LeavesIn(r, n)
    case Leaf(k) => k < n
  }

  ghost predicate Below(s: seq<nat>, n: nat) {
    forall j :: 0 <= j < |s| ==> s[j] < n
  }

  lemma LeavesBelow(cond: Cond, n: nat)
    requires LeavesIn(cond, n)
    ensures Below(Leaves(cond), n)
  {
  }

  lemma CondIsAllLeaves(cond: Cond, cmps: seq<Cmp>, env: Env, F: Functions)
    requires LeavesIn(cond, |cmps|)
    ensures forall k :: k in Leaves(cond) ==> k < |cmps|
    ensures CondHolds(cond, cmps, env, F) <==> forall k :: k in Leaves(cond) ==> CmpHolds(cmps[k], env, F)
  {
    match cond
    case NoCond =>
    case And(l, r) =>
      CondIsAllLeaves(l, cmps, env, F);
      CondIsAllLeaves(r, cmps, env, F);
    case Leaf(k) =>
      assert k in Leaves(cond);
  }
}
