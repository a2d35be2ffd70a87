/** Which columns of a table a query needs, which of them are copied, and where each occurrence finds its value. */
module ColumnLists {
  import opened Wrappers
  import opened Query
  import opened Lookup
  import opened AccessPath

  /** plan->columns and plan->must_get_clust of one table, and the symbol node fields copy_val and
      indirection, keyed by node address. */
  datatype Columns = Columns(list: seq<Exp>, mustGetClust: bool, copyVal: map<nat, bool>, indirection: map<nat, nat>)

  ghost predicate AllColumns(nodes: seq<Exp>) {
    forall k :: 0 <= k < |nodes| ==> nodes[k].Column?
  }

  /** The column nodes of an expression, left to right. */
  function Occurrences(e: Exp): (r: seq<Exp>)
    ensures AllColumns(r)
    decreases e, 1
  {
    match e
    case Func(_, _, args) => OccurrencesIn(args)
    case Column(_, _, _) => [e]
    case Value(_, _) => []
  }

  function OccurrencesIn(args: seq<Exp>): (r: seq<Exp>)
    ensures AllColumns(r)
    decreases args, 0
  {
    if args == [] then [] else Occurrences(args[0]) + OccurrencesIn(args[1..])
  }

  function OccurrencesInCond(cond: Cond, cmps: seq<Cmp>): (r: seq<Exp>)
    requires LeavesIn(cond, |cmps|)
    ensures AllColumns(r)
  {
    match cond
    case NoCond => []
    case And(l, r) => OccurrencesInCond(l, cmps) + OccurrencesInCond(r, cmps)
    case Leaf(k) => Occurrences(cmps[k].left) + Occurrences(cmps[k].right)
  }

  /** The column nodes of the conjuncts that are not yet determined once the i-th table has been accessed. */
  function UndeterminedOccurrences(cond: Cond, cmps: seq<Cmp>, tables: seq<Table>, i: nat): (r: seq<Exp>)
    requires LeavesIn(cond, |cmps|) && i < |tables|
    ensures AllColumns(r)
  {
    match cond
    case NoCond => []
    case And(l, r) => UndeterminedOccurrences(l, cmps, tables, i) + UndeterminedOccurrences(r, cmps, tables, i)
    case Leaf(k) =>
      if CmpDeterminedBefore(cmps[k], tables, i + 1) then []
      else Occurrences(cmps[k].left) + Occurrences(cmps[k].right)
  }

  function FindCol(list: seq<Exp>, col: nat): (r: Option<Exp>)
    requires AllColumns(list)
    ensures r.Some? ==> r.value in list && r.value.Column? && r.value.col == col
    ensures r.None? ==> forall k :: 0 <= k < |list| ==> list[k].col != col
  {
    if list == [] then None
    else if list[0].col == col then Some(list[0])
    else FindCol(list[1..], col)
  }

  /** What opt_find_all_cols does with one column node. */
  function Visit(st: Columns, node: Exp, copy: bool, table: nat, ix: Index): Columns
    requires AllColumns(st.list) && node.Column?
  {
    if node.table != table then st
    else
      var entry := FindCol(st.list, node.col);
      if entry.Some? then
        if entry.value == node then st else st.(indirection := st.indirection[node.id := entry.value.id])
      else
        Columns(st.list + [node], st.mustGetClust || (!ix.clustered && node.col !in ix.fields),
                st.copyVal[node.id := copy], st.indirection)
  }

  function VisitAll(st: Columns, nodes: seq<Exp>, copy: bool, table: nat, ix: Index): (r: Columns)
    requires AllColumns(st.list) && AllColumns(nodes)
    ensures AllColumns(r.list)
    decreases |nodes|
  {
    if nodes == [] then st else VisitAll(Visit(st, nodes[0], copy, table, ix), nodes[1..], copy, table, ix)
  }

  lemma {:induction false} VisitConcat(st: Columns, a: seq<Exp>, b: seq<Exp>, copy: bool, table: nat, ix: Index)
    requires AllColumns(st.list) && AllColumns(a) && AllColumns(b)
    ensures VisitAll(st, a + b, copy, table, ix) == VisitAll(VisitAll(st, a, copy, table, ix), b, copy, table, ix)
    decreases |a|
  {
    if a == [] {
      assert a + b == b;
    } else {
      assert (a + b)[1..] == a[1..] + b && (a + b)[0] == a[0];
      VisitConcat(Visit(st, a[0], copy, table, ix), a[1..], b, copy, table, ix);
    }
  }

  /** No two nodes share an address. */
  ghost predicate Addressed(nodes: set<Exp>) {
    forall a, b :: a in nodes && b in nodes && a.id == b.id ==> a == b
  }

  /** One entry per column, all of this table, none of them redirected elsewhere. */
  ghost predicate ListOk(st: Columns, seen: set<Exp>, table: nat) {
    && AllColumns(st.list)
    && (forall j, k :: 0 <= j < k < |st.list| ==> st.list[j].col != st.list[k].col)
    && (forall k :: 0 <= k < |st.list| ==>
          st.list[k] in seen && st.list[k].table == table && st.list[k].id !in st.indirection)
  }

  ghost predicate ServedBy(st: Columns, node: Exp, entry: Exp)
    requires node.Column? && entry.Column?
  {
    && entry.col == node.col
    && (entry == node || (node.id in st.indirection && st.indirection[node.id] == entry.id))
  }

  /** An occurrence is served by the list: it is listed, or points to the listed node of its column. */
  ghost predicate Served(st: Columns, node: Exp)
    requires AllColumns(st.list) && node.Column?
  {
    exists k :: 0 <= k < |st.list| && ServedBy(st, node, st.list[k])
  }

  ghost predicate AllServed(st: Columns, seen: set<Exp>, table: nat)
    requires AllColumns(st.list)
  {
    forall n :: n in seen && n.Column? && n.table == table ==> Served(st, n)
  }

  /** copy_val is set exactly for the listed columns in `copied`. */
  ghost predicate CopyOk(st: Columns, copied: set<nat>)
    requires AllColumns(st.list)
  {
    && (forall k :: 0 <= k < |st.list| ==>
          st.list[k].id in st.copyVal && (st.copyVal[st.list[k].id] <==> st.list[k].col in copied))
    && (forall c :: c in copied ==> FindCol(st.list, c).Some?)
  }

  ghost predicate ClustOk(st: Columns, ix: Index)
    requires AllColumns(st.list)
  {
    st.mustGetClust <==> !ix.clustered && exists k :: 0 <= k < |st.list| && st.list[k].col !in ix.fields
  }

  /** The classification of one table's columns after the nodes `seen` have been visited, of which those
      whose column is in `copied` were wanted by the select list or by an undetermined conjunct. */
  ghost predicate Classified(st: Columns, seen: set<Exp>, copied: set<nat>, table: nat, ix: Index) {
    ListOk(st, seen, table) && AllServed(st, seen, table) && CopyOk(st, copied) && ClustOk(st, ix)
  }

  ghost function Wanted(node: Exp, copy: bool, table: nat): set<nat> {
    if node.Column? && node.table == table && copy then {node.col} else {}
  }

  ghost function Redirect(st: Columns, node: Exp, entry: Exp): Columns {
    st.(indirection := st.indirection[node.id := entry.id])
  }

  /** The node's column is listed under another node, and the node is pointed there. */
  lemma RedirectKeepsListOk(st: Columns, node: Exp, k: nat, seen: set<Exp>, table: nat)
    requires Addressed(seen + {node}) && ListOk(st, seen, table)
    requires k < |st.list| && node.Column? && st.list[k].col == node.col && st.list[k] != node
    ensures ListOk(Redirect(st, node, st.list[k]), seen + {node}, table)
  {
    forall m | 0 <= m < |st.list| ensures st.list[m].id != node.id {
      assert st.list[m] in seen + {node} && node in seen + {node};
    }
  }

  lemma RedirectKeepsServed(st: Columns, node: Exp, k: nat, seen: set<Exp>, table: nat)
    requires Addressed(seen + {node}) && AllColumns(st.list) && AllServed(st, seen, table)
    requires k < |st.list| && node.Column? && st.list[k].col == node.col
    ensures AllServed(Redirect(st, node, st.list[k]), seen + {node}, table)
  {
    var st' := Redirect(st, node, st.list[k]);
    forall n | n in seen + {node} && n.Column? && n.table == table ensures Served(st', n) {
      if n == node {
        assert ServedBy(st', n, st'.list[k]);
      } else {
        var m :| 0 <= m < |st.list| && ServedBy(st, n, st.list[m]);
        assert n.id != node.id;
        assert ServedBy(st', n, st'.list[m]);
      }
    }
  }

  /** The node's column is not listed yet, and the node becomes the entry for it. */
  lemma AppendKeepsListOk(st: Columns, node: Exp, copy: bool, seen: set<Exp>, table: nat, ix: Index)
    requires ListOk(st, seen, table)
    requires node.Column? && node.table == table && FindCol(st.list, node.col).None?
    requires node.id !in st.indirection
    ensures ListOk(Visit(st, node, copy, table, ix), seen + {node}, table)
    ensures ClustOk(st, ix) ==> ClustOk(Visit(st, node, copy, table, ix), ix)
  {
    var list' := Visit(st, node, copy, table, ix).list;
    assert list'[|st.list|] == node && forall m :: 0 <= m < |st.list| ==> list'[m] == st.list[m];
  }

  lemma FindColAppend(list: seq<Exp>, node: Exp, col: nat)
    requires AllColumns(list) && node.Column?
    ensures AllColumns(list + [node])
    ensures FindCol(list, col).Some? || col == node.col ==> FindCol(list + [node], col).Some?
  {
    if list == [] {
      assert list + [node] == [node];
    } else {
      assert (list + [node])[1..] == list[1..] + [node];
      FindColAppend(list[1..], node, col);
    }
  }

  lemma AppendKeepsCopyOk(st: Columns, node: Exp, copy: bool, seen: set<Exp>, copied: set<nat>, table: nat, ix: Index)
    requires Addressed(seen + {node}) && ListOk(st, seen, table) && CopyOk(st, copied)
    requires node.Column? && node.table == table && FindCol(st.list, node.col).None?
    ensures CopyOk(Visit(st, node, copy, table, ix), copied + Wanted(node, copy, table))
  {
    var st' := Visit(st, node, copy, table, ix);
    forall m | 0 <= m < |st.list| ensures st'.list[m] == st.list[m] && st.list[m].id != node.id {
      assert st.list[m] in seen + {node} && node in seen + {node};
    }
    assert st'.list[|st.list|] == node;
    forall c | c in copied + Wanted(node, copy, table) ensures FindCol(st'.list, c).Some? {
      FindColAppend(st.list, node, c);
    }
  }

  lemma AppendKeepsServed(st: Columns, node: Exp, copy: bool, seen: set<Exp>, table: nat, ix: Index)
    requires AllColumns(st.list) && AllServed(st, seen, table)
    requires node.Column? && node.table == table && FindCol(st.list, node.col).None?
    ensures AllServed(Visit(st, node, copy, table, ix), seen + {node}, table)
  {
    var st' := Visit(st, node, copy, table, ix);
    forall n | n in seen + {node} && n.Column? && n.table == table ensures Served(st', n) {
      if n == node {
        assert ServedBy(st', n, st'.list[|st.list|]);
      } else {
        var k :| 0 <= k < |st.list| && ServedBy(st, n, st.list[k]);
        assert ServedBy(st', n, st'.list[k]);
      }
    }
  }

  lemma NewNodeClassified(st: Columns, node: Exp, copy: bool, seen: set<Exp>, copied: set<nat>, table: nat, ix: Index)
    requires node.Column? && node.table == table && Addressed(seen + {node})
    requires Classified(st, seen, copied, table, ix) && FindCol(st.list, node.col).None?
    requires node.id !in st.indirection
    ensures Classified(Visit(st, node, copy, table, ix), seen + {node}, copied + Wanted(node, copy, table), table, ix)
  {
    hide AllServed, CopyOk, Addressed, Wanted;
    AppendKeepsListOk(st, node, copy, seen, table, ix);
    AppendKeepsCopyOk(st, node, copy, seen, copied, table, ix);
    AppendKeepsServed(st, node, copy, seen, table, ix);
  }

  lemma RedirectKeepsRest(st: Columns, node: Exp, entry: Exp, copied: set<nat>, ix: Index)
    requires AllColumns(st.list) && node.Column? && CopyOk(st, copied) && ClustOk(st, ix)
    ensures AllColumns(Redirect(st, node, entry).list)
    ensures CopyOk(Redirect(st, node, entry), copied) && ClustOk(Redirect(st, node, entry), ix)
  {
  }

  lemma VisitRedirects(st: Columns, node: Exp, copy: bool, table: nat, ix: Index) returns (k: nat)
    requires AllColumns(st.list) && node.Column? && node.table == table && FindCol(st.list, node.col).Some?
    ensures k < |st.list| && st.list[k].col == node.col
    ensures Visit(st, node, copy, table, ix) == if st.list[k] == node then st else Redirect(st, node, st.list[k])
  {
    k :| 0 <= k < |st.list| && st.list[k] == FindCol(st.list, node.col).value;
  }

  lemma ListedNodeClassified(st: Columns, node: Exp, copy: bool, seen: set<Exp>, copied: set<nat>, table: nat, ix: Index)
    requires node.Column? && node.table == table && Addressed(seen + {node})
    requires Classified(st, seen, copied, table, ix) && FindCol(st.list, node.col).Some?
    requires copy ==> forall k :: 0 <= k < |st.list| ==> st.list[k].col in copied
    ensures Classified(Visit(st, node, copy, table, ix), seen + {node}, copied + Wanted(node, copy, table), table, ix)
  {
    hide AllServed, CopyOk, Addressed, ClustOk, Visit, FindCol, Redirect;
    var k := VisitRedirects(st, node, copy, table, ix);
    assert copied + Wanted(node, copy, table) == copied;
    if st.list[k] == node {
      assert seen + {node} == seen;
    } else {
      RedirectKeepsListOk(st, node, k, seen, table);
      RedirectKeepsServed(st, node, k, seen, table);
      RedirectKeepsRest(st, node, st.list[k], copied, ix);
    }
  }

  lemma SeenIsListed(st: Columns, node: Exp, seen: set<Exp>, table: nat)
    requires AllColumns(st.list) && AllServed(st, seen, table) && node in seen && node.Column? && node.table == table
    ensures FindCol(st.list, node.col).Some?
  {
    assert Served(st, node);
  }

  /** Visiting one more node keeps the classification: a copying visit comes before all others. */
  lemma VisitKeepsClassified(st: Columns, node: Exp, copy: bool, seen: set<Exp>, copied: set<nat>, table: nat,
                             ix: Index)
    requires node.Column? && Addressed(seen + {node})
    requires Classified(st, seen, copied, table, ix)
    requires node.table == table && node !in seen ==> node.id !in st.indirection
    requires copy ==> forall k :: 0 <= k < |st.list| ==> st.list[k].col in copied
    ensures Classified(Visit(st, node, copy, table, ix), seen + {node}, copied + Wanted(node, copy, table), table, ix)
  {
    if node.table != table {
      assert copied + Wanted(node, copy, table) == copied;
    } else if FindCol(st.list, node.col).Some? {
      ListedNodeClassified(st, node, copy, seen, copied, table, ix);
    } else {
      if node in seen {
        SeenIsListed(st, node, seen, table);
      }
      NewNodeClassified(st, node, copy, seen, copied, table, ix);
    }
  }

  ghost function NodeSet(nodes: seq<Exp>): set<Exp> {
    set n | n in nodes
  }

  ghost function ColsOf(nodes: seq<Exp>, table: nat): set<nat>
    requires AllColumns(nodes)
  {
    set k | 0 <= k < |nodes| && nodes[k].table == table :: nodes[k].col
  }

  lemma NodesCons(head: Exp, rest: seq<Exp>, table: nat)
    requires AllColumns(rest) && head.Column?
    ensures AllColumns([head] + rest)
    ensures NodeSet([head] + rest) == {head} + NodeSet(rest)
    ensures ColsOf([head] + rest, table) == Wanted(head, true, table) + ColsOf(rest, table)
  {
    var nodes := [head] + rest;
    assert forall k :: 0 <= k < |rest| ==> rest[k] == nodes[k + 1];
    assert nodes[0] == head;
  }

  lemma NewIds(head: Exp, rest: seq<Exp>, seen: set<Exp>, table: nat)
    requires Addressed(seen + {head} + NodeSet(rest))
    ensures forall n :: n in rest && n !in seen + {head} ==> n.id != head.id
  {
    forall n | n in rest && n !in seen + {head} ensures n.id != head.id {
      var all := seen + {head} + NodeSet(rest);
      assert n in all && head in all;
    }
  }

  /** A visit changes symbol fields of the visited node only, and adds at most that node to the list. */
  lemma VisitTouchesOne(st: Columns, node: Exp, copy: bool, table: nat, ix: Index)
    requires AllColumns(st.list) && node.Column?
    ensures var st' := Visit(st, node, copy, table, ix);
      && (forall id :: id != node.id || node.table != table ==>
            && (id in st'.copyVal <==> id in st.copyVal) && (id in st.copyVal ==> st'.copyVal[id] == st.copyVal[id])
            && (id in st'.indirection <==> id in st.indirection)
            && (id in st.indirection ==> st'.indirection[id] == st.indirection[id]))
      && (st'.list == st.list || (st'.list == st.list + [node] && node.table == table))
  {
  }

  lemma CopyingVisitReady(st: Columns, head: Exp, rest: seq<Exp>, seen: set<Exp>, copied: set<nat>, table: nat, ix: Index)
    requires AllColumns(st.list) && head.Column? && AllColumns(rest) && Addressed(seen + {head} + NodeSet(rest))
    requires forall n :: n in rest && n.table == table && n !in seen ==> n.id !in st.indirection
    requires forall k :: 0 <= k < |st.list| ==> st.list[k].col in copied
    ensures var st' := Visit(st, head, true, table, ix);
      && (forall n :: n in rest && n.table == table && n !in seen + {head} ==> n.id !in st'.indirection)
      && (forall k :: 0 <= k < |st'.list| ==> st'.list[k].col in copied + Wanted(head, true, table))
  {
    VisitTouchesOne(st, head, true, table, ix);
    NewIds(head, rest, seen, table);
  }

  /** The nodes of the select list and of the undetermined conjuncts: their columns are to be copied. */
  lemma {:induction false} CopyingVisits(st: Columns, nodes: seq<Exp>, seen: set<Exp>, copied: set<nat>, table: nat,
                                         ix: Index)
    requires AllColumns(nodes) && Addressed(seen + NodeSet(nodes))
    requires Classified(st, seen, copied, table, ix)
    requires forall n :: n in nodes && n.table == table && n !in seen ==> n.id !in st.indirection
    requires forall k :: 0 <= k < |st.list| ==> st.list[k].col in copied
    ensures Classified(VisitAll(st, nodes, true, table, ix), seen + NodeSet(nodes), copied + ColsOf(nodes, table),
                       table, ix)
    ensures var list := VisitAll(st, nodes, true, table, ix).list;
      forall k :: 0 <= k < |list| ==> list[k].col in copied + ColsOf(nodes, table)
    decreases |nodes|
  {
    assert AllColumns(st.list);
    hide Visit, Classified, Wanted;
    if nodes == [] {
      assert seen + NodeSet(nodes) == seen && copied + ColsOf(nodes, table) == copied;
    } else {
      var head, rest := nodes[0], nodes[1..];
      assert nodes == [head] + rest;
      NodesCons(head, rest, table);
      assert seen + NodeSet(nodes) == seen + {head} + NodeSet(rest);
      assert copied + ColsOf(nodes, table) == copied + Wanted(head, true, table) + ColsOf(rest, table);
      VisitKeepsClassified(st, head, true, seen, copied, table, ix);
      CopyingVisitReady(st, head, rest, seen, copied, table, ix);
      CopyingVisits(Visit(st, head, true, table, ix), rest, seen + {head}, copied + Wanted(head, true, table), table, ix);
    }
  }

  /** The remaining nodes of the search condition: whatever they add to the list is not copied. */
  lemma {:induction false} PlainVisits(st: Columns, nodes: seq<Exp>, seen: set<Exp>, copied: set<nat>, table: nat,
                                       ix: Index)
    requires AllColumns(nodes) && Addressed(seen + NodeSet(nodes))
    requires Classified(st, seen, copied, table, ix)
    requires forall n :: n in nodes && n.table == table && n !in seen ==> n.id !in st.indirection
    ensures Classified(VisitAll(st, nodes, false, table, ix), seen + NodeSet(nodes), copied, table, ix)
    decreases |nodes|
  {
    assert AllColumns(st.list);
    hide Visit, Classified;
    if nodes == [] {
      assert seen + NodeSet(nodes) == seen;
    } else {
      var head, rest := nodes[0], nodes[1..];
      assert nodes == [head] + rest;
      NodesCons(head, rest, table);
      assert seen + NodeSet(nodes) == seen + {head} + NodeSet(rest);
      assert copied + Wanted(head, false, table) == copied;
      VisitKeepsClassified(st, head, false, seen, copied, table, ix);
      VisitTouchesOne(st, head, false, table, ix);
      NewIds(head, rest, seen, table);
      PlainVisits(Visit(st, head, false, table, ix), rest, seen + {head}, copied, table, ix);
    }
  }

  /** Visiting nodes changes the symbol fields of no node of another table. */
  lemma {:induction false} VisitAllTouches(st: Columns, nodes: seq<Exp>, copy: bool, table: nat, ix: Index, id: nat)
    requires AllColumns(st.list) && AllColumns(nodes)
    requires forall n :: n in nodes && n.table == table ==> n.id != id
    ensures var st' := VisitAll(st, nodes, copy, table, ix);
      && (id in st'.copyVal <==> id in st.copyVal) && (id in st.copyVal ==> st'.copyVal[id] == st.copyVal[id])
      && (id in st'.indirection <==> id in st.indirection)
      && (id in st.indirection ==> st'.indirection[id] == st.indirection[id])
    decreases |nodes|
  {
    if nodes != [] {
      assert nodes[0] in nodes;
      VisitTouchesOne(st, nodes[0], copy, table, ix);
      VisitAllTouches(Visit(st, nodes[0], copy, table, ix), nodes[1..], copy, table, ix, id);
    }
  }

  /** `id` is the address of none of the table's nodes. */
  ghost predicate Foreign(id: nat, nodes: seq<Exp>, table: nat) {
    forall n :: n in nodes && n.Column? && n.table == table ==> n.id != id
  }

  ghost predicate SameFields(a: Columns, b: Columns, id: nat) {
    && (id in a.copyVal <==> id in b.copyVal) && (id in a.copyVal ==> a.copyVal[id] == b.copyVal[id])
    && (id in a.indirection <==> id in b.indirection)
    && (id in a.indirection ==> a.indirection[id] == b.indirection[id])
  }

  /** The classification of a table depends on the symbol fields of its own nodes only. */
  lemma ClassifiedFrame(a: Columns, b: Columns, seen: set<Exp>, copied: set<nat>, table: nat, ix: Index)
    requires Classified(a, seen, copied, table, ix)
    requires b.list == a.list && b.mustGetClust == a.mustGetClust
    requires forall n :: n in seen && n.Column? && n.table == table ==> SameFields(a, b, n.id)
    ensures Classified(b, seen, copied, table, ix)
  {
    assert forall k :: 0 <= k < |a.list| ==> SameFields(a, b, a.list[k].id);
    forall n | n in seen && n.Column? && n.table == table ensures Served(b, n) {
      assert SameFields(a, b, n.id);
      var k :| 0 <= k < |a.list| && ServedBy(a, n, a.list[k]);
      assert ServedBy(b, n, b.list[k]);
    }
  }

  /** All the column nodes of a query. */
  ghost function AllNodes(selectList: seq<Exp>, cond: Cond, cmps: seq<Cmp>): seq<Exp>
    requires LeavesIn(cond, |cmps|)
  {
    OccurrencesIn(selectList) + OccurrencesInCond(cond, cmps)
  }

  /** The columns of a table that must be copied: those of the select list and of the conjuncts that are
      not yet determined once the table has been accessed. */
  ghost function CopiedCols(selectList: seq<Exp>, cond: Cond, cmps: seq<Cmp>, tables: seq<Table>, i: nat): set<nat>
    requires LeavesIn(cond, |cmps|) && i < |tables|
  {
    ColsOf(OccurrencesIn(selectList), tables[i].id) + ColsOf(UndeterminedOccurrences(cond, cmps, tables, i), tables[i].id)
  }

  lemma {:induction false} UndeterminedAreOccurrences(cond: Cond, cmps: seq<Cmp>, tables: seq<Table>, i: nat)
    requires LeavesIn(cond, |cmps|) && i < |tables|
    ensures forall n :: n in UndeterminedOccurrences(cond, cmps, tables, i) ==> n in OccurrencesInCond(cond, cmps)
  {
    if cond.And? {
      UndeterminedAreOccurrences(cond.left, cmps, tables, i);
      UndeterminedAreOccurrences(cond.right, cmps, tables, i);
    }
  }

  /** The three passes of opt_classify_cols: select list, undetermined conjuncts, whole search condition. */
  ghost function ThreePasses(st: Columns, selectList: seq<Exp>, cond: Cond, cmps: seq<Cmp>, tables: seq<Table>,
                             i: nat, ix: Index): Columns
    requires LeavesIn(cond, |cmps|) && i < |tables| && AllColumns(st.list)
  {
    var t := tables[i].id;
    var st1 := VisitAll(st, OccurrencesIn(selectList), true, t, ix);
    var st2 := VisitAll(st1, UndeterminedOccurrences(cond, cmps, tables, i), true, t, ix);
    VisitAll(st2, OccurrencesInCond(cond, cmps), false, t, ix)
  }

  /** Nodes that have not been visited have no indirection yet. */
  lemma FreshAfter(st: Columns, nodes: seq<Exp>, all: set<Exp>, table: nat, ix: Index, copy: bool)
    requires AllColumns(st.list) && AllColumns(nodes)
    requires Addressed(all + NodeSet(nodes))
    requires forall n :: n in all && n.Column? && n.table == table ==> n.id !in st.indirection
    ensures forall n :: n in all && n.Column? && n.table == table && n !in nodes ==>
              n.id !in VisitAll(st, nodes, copy, table, ix).indirection
  {
    forall n | n in all && n.Column? && n.table == table && n !in nodes
      ensures n.id !in VisitAll(st, nodes, copy, table, ix).indirection
    {
      forall m | m in nodes ensures m.id != n.id {
        assert m in all + NodeSet(nodes) && n in all + NodeSet(nodes);
      }
      VisitAllTouches(st, nodes, copy, table, ix, n.id);
    }
  }

  lemma NothingVisited(st: Columns, table: nat, ix: Index)
    requires st.list == [] && !st.mustGetClust
    ensures Classified(st, {}, {}, table, ix)
  {
  }

  /** The three passes, one after the other, classify every column of the table. */
  lemma ThreePassesClassify(st: Columns, selectList: seq<Exp>, cond: Cond, cmps: seq<Cmp>, tables: seq<Table>,
                            i: nat, ix: Index)
    requires LeavesIn(cond, |cmps|) && i < |tables|
    requires st.list == [] && !st.mustGetClust
    requires Addressed(NodeSet(AllNodes(selectList, cond, cmps)))
    requires forall n :: n in AllNodes(selectList, cond, cmps) && n.Column? && n.table == tables[i].id ==>
               n.id !in st.indirection
    ensures Classified(ThreePasses(st, selectList, cond, cmps, tables, i, ix), NodeSet(AllNodes(selectList, cond, cmps)),
                       CopiedCols(selectList, cond, cmps, tables, i), tables[i].id, ix)
  {
    hide Visit, Wanted, ListOk, AllServed, CopyOk, ClustOk;
    var t := tables[i].id;
    NothingVisited(st, t, ix);
    var a, b, c := OccurrencesIn(selectList), UndeterminedOccurrences(cond, cmps, tables, i), OccurrencesInCond(cond, cmps);
    var all := NodeSet(AllNodes(selectList, cond, cmps));
    UndeterminedAreOccurrences(cond, cmps, tables, i);
    assert all == NodeSet(a) + NodeSet(c) && NodeSet(b) <= NodeSet(c);
    assert {} + NodeSet(a) == NodeSet(a) && {} + ColsOf(a, t) == ColsOf(a, t);
    CopyingVisits(st, a, {}, {}, t, ix);
    var st1 := VisitAll(st, a, true, t, ix);
    FreshAfter(st, a, all, t, ix, true);
    CopyingVisits(st1, b, NodeSet(a), ColsOf(a, t), t, ix);
    var st2 := VisitAll(st1, b, true, t, ix);
    FreshAfter(st1, b, all - NodeSet(a), t, ix, true);
    PlainVisits(st2, c, NodeSet(a) + NodeSet(b), ColsOf(a, t) + ColsOf(b, t), t, ix);
    assert NodeSet(a) + NodeSet(b) + NodeSet(c) == all;
  }

  lemma NodeSetConcat(a: seq<Exp>, b: seq<Exp>)
    ensures NodeSet(a + b) == NodeSet(a) + NodeSet(b)
  {
  }

  /** Swapped arguments are the same nodes, of the same columns. */
  lemma {:induction false} NodesSwapped(cond: Cond, a: seq<Cmp>, b: seq<Cmp>, tables: seq<Table>, i: nat)
    requires SameUpToSwap(a, b) && LeavesIn(cond, |a|) && i < |tables|
    ensures NodeSet(OccurrencesInCond(cond, a)) == NodeSet(OccurrencesInCond(cond, b))
    ensures NodeSet(UndeterminedOccurrences(cond, a, tables, i)) == NodeSet(UndeterminedOccurrences(cond, b, tables, i))
  {
    if cond.And? {
      NodesSwapped(cond.left, a, b, tables, i);
      NodesSwapped(cond.right, a, b, tables, i);
      NodeSetConcat(OccurrencesInCond(cond.left, a), OccurrencesInCond(cond.right, a));
      NodeSetConcat(OccurrencesInCond(cond.left, b), OccurrencesInCond(cond.right, b));
      NodeSetConcat(UndeterminedOccurrences(cond.left, a, tables, i), UndeterminedOccurrences(cond.right, a, tables, i));
      NodeSetConcat(UndeterminedOccurrences(cond.left, b, tables, i), UndeterminedOccurrences(cond.right, b, tables, i));
    } else if cond.Leaf? {
      NodeSetConcat(Occurrences(a[cond.k].left), Occurrences(a[cond.k].right));
      NodeSetConcat(Occurrences(a[cond.k].right), Occurrences(a[cond.k].left));
    }
  }

  lemma ColsOfNodeSet(a: seq<Exp>, b: seq<Exp>, table: nat)
    requires AllColumns(a) && AllColumns(b) && NodeSet(a) == NodeSet(b)
    ensures ColsOf(a, table) == ColsOf(b, table)
  {
    forall k | 0 <= k < |a| ensures exists m :: 0 <= m < |b| && b[m] == a[k] {
      assert a[k] in NodeSet(b);
    }
    forall k | 0 <= k < |b| ensures exists m :: 0 <= m < |a| && a[m] == b[k] {
      assert b[k] in NodeSet(a);
    }
  }

  lemma CopiedSwapped(selectList: seq<Exp>, cond: Cond, a: seq<Cmp>, b: seq<Cmp>, tables: seq<Table>, i: nat)
    requires SameUpToSwap(a, b) && LeavesIn(cond, |a|) && i < |tables|
    ensures CopiedCols(selectList, cond, a, tables, i) == CopiedCols(selectList, cond, b, tables, i)
    ensures NodeSet(AllNodes(selectList, cond, a)) == NodeSet(AllNodes(selectList, cond, b))
  {
    NodesSwapped(cond, a, b, tables, i);
    ColsOfNodeSet(UndeterminedOccurrences(cond, a, tables, i), UndeterminedOccurrences(cond, b, tables, i), tables[i].id);
    NodeSetConcat(OccurrencesIn(selectList), OccurrencesInCond(cond, a));
    NodeSetConcat(OccurrencesIn(selectList), OccurrencesInCond(cond, b));
  }

  lemma {:induction false} OccurrencesInAppend(args: seq<Exp>, e: Exp)
    ensures OccurrencesIn(args + [e]) == OccurrencesIn(args) + Occurrences(e)
  {
    if args == [] {
      assert args + [e] == [e];
      assert OccurrencesIn([e]) == Occurrences(e) + OccurrencesIn([]);
    } else {
      assert (args + [e])[1..] == args[1..] + [e];
      OccurrencesInAppend(args[1..], e);
    }
  }

  lemma PassesTouch(st: Columns, selectList: seq<Exp>, cond: Cond, cmps: seq<Cmp>, tables: seq<Table>, i: nat, ix: Index)
    requires LeavesIn(cond, |cmps|) && i < |tables| && AllColumns(st.list)
    ensures forall id :: Foreign(id, AllNodes(selectList, cond, cmps), tables[i].id) ==>
              SameFields(st, ThreePasses(st, selectList, cond, cmps, tables, i, ix), id)
  {
    var t := tables[i].id;
    var st1 := VisitAll(st, OccurrencesIn(selectList), true, t, ix);
    var st2 := VisitAll(st1, UndeterminedOccurrences(cond, cmps, tables, i), true, t, ix);
    var st3 := VisitAll(st2, OccurrencesInCond(cond, cmps), false, t, ix);
    UndeterminedAreOccurrences(cond, cmps, tables, i);
    forall id | Foreign(id, AllNodes(selectList, cond, cmps), t)
      ensures SameFields(st, st3, id)
    {
      VisitAllTouches(st, OccurrencesIn(selectList), true, t, ix, id);
      VisitAllTouches(st1, UndeterminedOccurrences(cond, cmps, tables, i), true, t, ix, id);
      VisitAllTouches(st2, OccurrencesInCond(cond, cmps), false, t, ix, id);
    }
  }
}
