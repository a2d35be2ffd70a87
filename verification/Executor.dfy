/** How row_sel runs a plan: one index cursor per table, nested from the first table to the last. */
module Executor {
  import opened Wrappers
  import opened Query
  import opened Lookup
  import opened AccessPath
  import opened LexOrder

  /** The rows of the i-th table in the order of an index. */
  type Database = (nat, Index) -> seq<Row>

  function ColValue(row: Row, col: nat): int {
    if col < |row| then row[col] else 0
  }

  function Key(row: Row, ix: Index, n: nat): (k: seq<int>)
    requires n <= |ix.fields|
    ensures |k| == n
  {
    seq(n, j requires 0 <= j < n => ColValue(row, ix.fields[j]))
  }

  /** Rows strictly ascend on the unique-in-tree fields, and no two agree on the unique ones. */
  ghost predicate IndexOrdered(rows: seq<Row>, ix: Index)
    requires ix.nUnique <= |ix.fields|
  {
    && (forall a, b :: 0 <= a < b < |rows| ==>
          LexLt(Key(rows[a], ix, ix.NUniqueInTree()), Key(rows[b], ix, ix.NUniqueInTree())))
    && (forall a, b :: 0 <= a < b < |rows| ==> Key(rows[a], ix, ix.nUnique) != Key(rows[b], ix, ix.nUnique))
  }

  /** The rows in the order a cursor that travels in the given direction meets them. */
  function Travel(asc: bool, rows: seq<Row>): (r: seq<Row>)
    ensures |r| == |rows|
    ensures forall j :: 0 <= j < |r| ==> r[j] == if asc then rows[j] else rows[|rows| - 1 - j]
  {
    if asc then rows else seq(|rows|, j requires 0 <= j < |rows| => rows[|rows| - 1 - j])
  }

  /** Rows a search in the given mode leaves behind the cursor. */
  predicate Passed(mode: SearchMode, key: seq<int>, tuple: seq<int>)
    requires |key| == |tuple|
  {
    match mode
    case CurGE => LexLt(key, tuple)
    case CurG => LexLt(key, tuple) || key == tuple
    case CurLE => LexLt(tuple, key)
    case CurL => LexLt(tuple, key) || key == tuple
  }

  function Tuple(p: Path, env: Env, F: Functions): (t: seq<int>)
    ensures |t| == |p.tupleExps|
  {
    seq(|p.tupleExps|, j requires 0 <= j < |p.tupleExps| => Eval(p.tupleExps[j], env, F))
  }

  /** row_sel_open_pcur: the rows at and after the cursor position, in travel order. */
  function Open(p: Path, tuple: seq<int>, rows: seq<Row>): seq<Row>
    requires |tuple| <= |p.index.fields|
  {
    if rows == [] then []
    else if tuple != [] && Passed(p.mode, Key(rows[0], p.index, |tuple|), tuple) then Open(p, tuple, rows[1..])
    else rows
  }

  /** row_sel_test_end_conds: the left side is fetched from the row, the right side was evaluated when the
      cursor was opened. */
  predicate EndCondsHold(p: Plan, cmps: seq<Cmp>, outer: Env, env: Env, F: Functions) {
    forall k :: k in p.endConds && k < |cmps| ==>
      Compare(cmps[k].op, Eval(cmps[k].left, env, F), Eval(cmps[k].right, outer, F))
  }

  predicate OtherCondsHold(p: Plan, cmps: seq<Cmp>, env: Env, F: Functions) {
    forall k :: k in p.otherConds && k < |cmps| ==> CmpHolds(cmps[k], env, F)
  }

  predicate MatchesTuple(p: Path, tuple: seq<int>, row: Row) {
    forall j :: 0 <= j < p.nExactMatch && j < |tuple| && j < |p.index.fields| ==>
      ColValue(row, p.index.fields[j]) == tuple[j]
  }

  /** row_sel, record loop: the qualifying rows from the cursor on, up to the first that fails an end condition. */
  function Fetch(p: Plan, cmps: seq<Cmp>, outer: Env, rows: seq<Row>, F: Functions): seq<Row> {
    if rows == [] then []
    else
      var env := outer[p.path.table.id := rows[0]];
      if !EndCondsHold(p, cmps, outer, env, F) then []
      else (if OtherCondsHold(p, cmps, env, F) then [rows[0]] else []) + Fetch(p, cmps, outer, rows[1..], F)
  }

  /** The record whose matched fields a search leaves in up_match: the nearest one above the search position. For a
      search upwards it is the one under the cursor, for a search downwards the last one passed over. */
  function UpRecord(p: Path, tuple: seq<int>, rows: seq<Row>): Option<Row>
    requires |tuple| <= |p.index.fields|
  {
    var ahead := Open(p, tuple, rows);
    if p.asc then if ahead == [] then None else Some(ahead[0])
    else if |ahead| < |rows| then Some(rows[|rows| - |ahead| - 1]) else None
  }

  /** row_sel, unique search: up_match instead of the end conditions, and at most one row. Compiled with
      assertions, row_sel stops unless the search is made upwards. */
  function FetchUnique(p: Plan, cmps: seq<Cmp>, tuple: seq<int>, outer: Env, rows: seq<Row>, F: Functions): seq<Row>
    requires |tuple| <= |p.path.index.fields|
  {
    var ahead := Open(p.path, tuple, rows);
    var up := UpRecord(p.path, tuple, rows);
    if ahead == [] || up.None? || !MatchesTuple(p.path, tuple, up.value) then []
    else if OtherCondsHold(p, cmps, outer[p.path.table.id := ahead[0]], F) then [ahead[0]]
    else []
  }

  /** A unique search made downwards. */
  predicate DescendingUnique(p: Path) {
    p.uniqueSearch && !p.asc
  }

  ghost predicate Runnable(plans: seq<Plan>) {
    forall i :: 0 <= i < |plans| ==> |plans[i].path.tupleExps| <= |plans[i].path.index.fields|
  }

  function FetchTable(plans: seq<Plan>, cmps: seq<Cmp>, db: Database, i: nat, env: Env, F: Functions): seq<Row>
    requires i < |plans| && |plans[i].path.tupleExps| <= |plans[i].path.index.fields|
  {
    var p := plans[i];
    var tuple := Tuple(p.path, env, F);
    var rows := Travel(p.path.asc, db(i, p.path.index));
    if p.path.uniqueSearch then FetchUnique(p, cmps, tuple, env, rows, F)
    else Fetch(p, cmps, env, Open(p.path, tuple, rows), F)
  }

  /** The result of the nested loops over tables i, i + 1, ..., in the order it is produced. */
  function Join(plans: seq<Plan>, cmps: seq<Cmp>, db: Database, i: nat, env: Env, F: Functions): seq<Env>
    requires i <= |plans| && Runnable(plans)
    decreases |plans| - i, 1, 0
  {
    if i == |plans| then [env]
    else JoinRows(plans, cmps, db, i, env, FetchTable(plans, cmps, db, i, env, F), F)
  }

  function JoinRows(plans: seq<Plan>, cmps: seq<Cmp>, db: Database, i: nat, env: Env, rows: seq<Row>, F: Functions)
    : seq<Env>
    requires i < |plans| && Runnable(plans)
    decreases |plans| - i, 0, |rows|
  {
    if rows == [] then []
    else Join(plans, cmps, db, i + 1, env[plans[i].path.table.id := rows[0]], F)
         + JoinRows(plans, cmps, db, i, env, rows[1..], F)
  }

  /** The meaning of the query: every combination of rows, in the order of the scanned indexes, kept if
      the whole search condition holds. */
  function Reference(s: Select, plans: seq<Plan>, db: Database, i: nat, env: Env, F: Functions): seq<Env>
    requires i <= |plans| && LeavesIn(s.cond, |s.cmps|)
    decreases |plans| - i, 1, 0
  {
    if i == |plans| then if CondHolds(s.cond, s.cmps, env, F) then [env] else []
    else ReferenceRows(s, plans, db, i, env, Travel(plans[i].path.asc, db(i, plans[i].path.index)), F)
  }

  function ReferenceRows(s: Select, plans: seq<Plan>, db: Database, i: nat, env: Env, rows: seq<Row>, F: Functions)
    : seq<Env>
    requires i < |plans| && LeavesIn(s.cond, |s.cmps|)
    decreases |plans| - i, 0, |rows|
  {
    if rows == [] then []
    else Reference(s, plans, db, i + 1, env[plans[i].path.table.id := rows[0]], F)
         + ReferenceRows(s, plans, db, i, env, rows[1..], F)
  }
}
