/** Where the search tuple comes from, and what each class of conjunct says. */
module PlanFacts {
  import opened Wrappers
  import opened Query
  import opened Lookup
  import opened AccessPath

  ghost predicate Planned(s: Select, i: nat, p: Path) {
    s.Valid() && IsAccessPath(s, i, p) && p.index in s.tables[i].indexes
  }

  lemma PlannedFacts(s: Select, i: nat, p: Path)
    requires Planned(s, i, p)
    ensures p.index.Valid(s.tables[i].nUserCols)
    ensures p.nExactMatch <= |p.tupleExps| <= p.nExactMatch + 1
    ensures p.nExactMatch <= p.index.NUniqueInTree() <= |p.index.fields|
    ensures |p.tupleExps| > p.nExactMatch <==> RangeAt(s, i, p.index).Some?
    ensures RangeAt(s, i, p.index).Some? ==>
              p.nExactMatch < p.index.NUniqueInTree() && p.tupleExps[p.nExactMatch] == RangeAt(s, i, p.index).value.0
    ensures forall j :: 0 <= j < i ==> s.tables[j].id != s.tables[i].id
  {
    assert s.tables[i] in s.tables;
    ExactRunIsMaximal(s, i, p.index, 0);
  }

  /** The conjunct an exactly matched field got its value from: it is an end condition. */
  lemma ExactSource(s: Select, i: nat, p: Path, j: nat) returns (k: nat)
    requires Planned(s, i, p) && j < p.nExactMatch
    ensures j < |p.index.fields| && j < |p.tupleExps|
    ensures k in Leaves(s.cond) && k < |s.cmps|
    ensures LookInComparison(Equal, p.index.fields[j], s.cmps[k], s.tables, i) == Some((p.tupleExps[j], Eq))
    ensures p.nExactMatch <= |p.tupleExps| && Classify(s, i, p, s.cmps[k]) == EndCond
  {
    PlannedFacts(s, i, p);
    ExactRunIsMaximal(s, i, p.index, 0);
    assert LookCol(Equal, s, i, p.index, j).Some?;
    k := LookFinds(Equal, p.index.fields[j], s.cond, s, i);
    LookedUpIsClaimed(Equal, p.index.fields[j], s.cmps[k], s.tables, i);
    assert IsArg(p.tupleExps[j], s.cmps[k]);
  }

  /** The conjunct the last, not exactly matched, field got its limit from. */
  lemma RangeSource(s: Select, i: nat, p: Path) returns (k: nat)
    requires Planned(s, i, p) && |p.tupleExps| > p.nExactMatch
    ensures p.nExactMatch < p.index.NUniqueInTree() <= |p.index.fields|
    ensures k in Leaves(s.cond) && k < |s.cmps|
    ensures LookInComparison(Comparison, p.index.fields[p.nExactMatch], s.cmps[k], s.tables, i)
            == Some((p.tupleExps[p.nExactMatch], LastOp(s, i, p.index)))
    ensures CmpDeterminedBefore(s.cmps[k], s.tables, i + 1) && !CmpDeterminedBefore(s.cmps[k], s.tables, i)
  {
    PlannedFacts(s, i, p);
    k := LookFinds(Comparison, p.index.fields[p.nExactMatch], s.cond, s, i);
    LookedUpIsClaimed(Comparison, p.index.fields[p.nExactMatch], s.cmps[k], s.tables, i);
  }

  /** A node is an argument of one comparison only. */
  lemma ArgOfOne(s: Select, e: Exp, k: nat, m: nat)
    requires s.Valid() && k < |s.cmps| && m < |s.cmps|
    requires e == s.cmps[k].left || e == s.cmps[k].right
    requires IsArg(e, s.cmps[m])
    ensures m == k
  {
  }

  /** An end condition equates a matched field with its tuple value or limits the next field from the far side. */
  lemma EndCondMeaning(s: Select, i: nat, p: Path, m: nat)
    requires Planned(s, i, p) && m < |s.cmps| && p.nExactMatch <= |p.tupleExps|
    requires Classify(s, i, p, s.cmps[m]) == EndCond
    ensures p.nExactMatch <= |p.index.fields|
    ensures (exists j :: 0 <= j < p.nExactMatch &&
              LookInComparison(Equal, p.index.fields[j], s.cmps[m], s.tables, i) == Some((p.tupleExps[j], Eq)))
            || LimitsFarEnd(s, i, p, s.cmps[m])
  {
    PlannedFacts(s, i, p);
    if exists j :: 0 <= j < p.nExactMatch && IsArg(p.tupleExps[j], s.cmps[m]) {
      var j :| 0 <= j < p.nExactMatch && IsArg(p.tupleExps[j], s.cmps[m]);
      var k := ExactSource(s, i, p, j);
      ArgOfOne(s, p.tupleExps[j], k, m);
    }
  }

  /** A scroll condition is the very limit the cursor was positioned with. */
  lemma ScrollCondMeaning(s: Select, i: nat, p: Path, m: nat)
    requires Planned(s, i, p) && m < |s.cmps| && p.nExactMatch <= |p.tupleExps|
    requires Classify(s, i, p, s.cmps[m]) == ScrollCond
    ensures p.nExactMatch < p.index.NUniqueInTree() <= |p.index.fields| && |p.tupleExps| == p.nExactMatch + 1
    ensures LookInComparison(Comparison, p.index.fields[p.nExactMatch], s.cmps[m], s.tables, i)
            == Some((p.tupleExps[p.nExactMatch], LastOp(s, i, p.index)))
  {
    PlannedFacts(s, i, p);
    var k := RangeSource(s, i, p);
    ArgOfOne(s, p.tupleExps[p.nExactMatch], k, m);
  }

  /** One comparison gives a value to one column only. */
  lemma OneColumnPerComparison(a: nat, b: nat, c: Cmp, tables: seq<Table>, i: nat)
    requires i < |tables| && forall j :: 0 <= j < i ==> tables[j].id != tables[i].id
    requires LookInComparison(Equal, a, c, tables, i).Some? && LookInComparison(Equal, b, c, tables, i).Some?
    ensures a == b
  {
  }

  ghost predicate SourceOf(s: Select, i: nat, p: Path, j: nat, k: nat)
    requires i < |s.tables| && p.nExactMatch <= |p.tupleExps|
  {
    && k in Leaves(s.cond) && k < |s.cmps| && j < |p.index.fields|
    && LookInComparison(Equal, p.index.fields[j], s.cmps[k], s.tables, i).Some?
    && Classify(s, i, p, s.cmps[k]) == EndCond
  }

  /** Different matched fields got their values from different conjuncts. */
  lemma {:induction false} ExactSources(s: Select, i: nat, p: Path, n: nat) returns (ks: seq<nat>)
    requires Planned(s, i, p) && n <= p.nExactMatch <= |p.tupleExps|
    ensures |ks| == n && NoDuplicates(ks)
    ensures forall j :: 0 <= j < n ==> SourceOf(s, i, p, j, ks[j])
  {
    ks := [];
    if n > 0 {
      ks := ExactSources(s, i, p, n - 1);
      PlannedFacts(s, i, p);
      var k := ExactSource(s, i, p, n - 1);
      assert SourceOf(s, i, p, n - 1, k);
      forall j | 0 <= j < n - 1 ensures ks[j] != k {
        assert SourceOf(s, i, p, j, ks[j]);
        if ks[j] == k {
          OneColumnPerComparison(p.index.fields[j], p.index.fields[n - 1], s.cmps[k], s.tables, i);
        }
      }
      ks := ks + [k];
    }
  }

  lemma {:induction false} InjectionBound(a: seq<nat>, b: seq<nat>)
    requires NoDuplicates(a) && forall j :: 0 <= j < |a| ==> a[j] in b
    ensures |a| <= |b|
  {
    if a != [] {
      var n := |a| - 1;
      var m :| 0 <= m < |b| && b[m] == a[n];
      forall j | 0 <= j < n ensures a[j] in b[..m] + b[m + 1..] {
        assert a[j] != a[n];
        var q :| 0 <= q < |b| && b[q] == a[j];
        assert if q < m then (b[..m] + b[m + 1..])[q] == a[j] else (b[..m] + b[m + 1..])[q - 1] == a[j];
      }
      InjectionBound(a[..n], b[..m] + b[m + 1..]);
    }
  }

  /** The assertion after classification: there are at least as many end conditions as matched fields. */
  lemma EnoughEndConds(s: Select, i: nat, p: Path)
    requires Planned(s, i, p)
    ensures p.nExactMatch <= |p.tupleExps| && Below(Leaves(s.cond), |s.cmps|)
    ensures |OfClass(s, i, p, s.cmps, Leaves(s.cond), EndCond)| >= p.nExactMatch
  {
    PlannedFacts(s, i, p);
    LeavesBelow(s.cond, |s.cmps|);
    OfClassMembers(s, i, p, s.cmps, Leaves(s.cond), EndCond);
    var ks := ExactSources(s, i, p, p.nExactMatch);
    forall j | 0 <= j < |ks| ensures ks[j] in OfClass(s, i, p, s.cmps, Leaves(s.cond), EndCond) {
      assert SourceOf(s, i, p, j, ks[j]);
    }
    InjectionBound(ks, OfClass(s, i, p, s.cmps, Leaves(s.cond), EndCond));
  }

  /** Every end condition is, after normalization, a comparison of a column of the table with an expression
      that is known before the table is accessed. */
  lemma NormalizedEndCond(s: Select, i: nat, p: Path, m: nat, c: Cmp)
    requires Planned(s, i, p) && m < |s.cmps| && p.nExactMatch <= |p.tupleExps|
    requires Classify(s, i, p, s.cmps[m]) == EndCond
    requires c == (if s.cmps[m].right.Column? && s.cmps[m].right.table == s.tables[i].id
                   then Swap(s.cmps[m]) else s.cmps[m])
    ensures c.left.Column? && c.left.table == s.tables[i].id
    ensures DeterminedBefore(c.right, s.tables, i)
  {
    PlannedFacts(s, i, p);
    EndCondMeaning(s, i, p, m);
  }

  /** End conditions are claimed by the table itself, never by an earlier one. */
  lemma EndCondClaimed(s: Select, i: nat, p: Path, m: nat)
    requires Planned(s, i, p) && m < |s.cmps| && p.nExactMatch <= |p.tupleExps|
    requires Classify(s, i, p, s.cmps[m]) == EndCond
    ensures CmpDeterminedBefore(s.cmps[m], s.tables, i + 1) && !CmpDeterminedBefore(s.cmps[m], s.tables, i)
  {
    PlannedFacts(s, i, p);
    EndCondMeaning(s, i, p, m);
    if LimitsFarEnd(s, i, p, s.cmps[m]) {
      LookedUpIsClaimed(Comparison, p.index.fields[p.nExactMatch], s.cmps[m], s.tables, i);
    } else {
      var j :| 0 <= j < p.nExactMatch &&
        LookInComparison(Equal, p.index.fields[j], s.cmps[m], s.tables, i) == Some((p.tupleExps[j], Eq));
      LookedUpIsClaimed(Equal, p.index.fields[j], s.cmps[m], s.tables, i);
    }
  }

  lemma CmpDeterminedMonotone(c: Cmp, tables: seq<Table>, m: nat, n: nat)
    requires m <= n <= |tables| && CmpDeterminedBefore(c, tables, m)
    ensures CmpDeterminedBefore(c, tables, n)
  {
    DeterminedMonotone(c.left, tables, m, n);
    DeterminedMonotone(c.right, tables, m, n);
  }
}
