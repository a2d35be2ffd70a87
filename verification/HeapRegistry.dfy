/** The register of live heaps and the memory counters of mem0dbg.cc. */
module HeapRegistry {
  const HASH_SIZE := 997

  /** mem_hash_node_t; heaps are addresses. */
  datatype Node = Node(heap: nat, nthHeap: nat)

  predicate Holds(list: seq<Node>, heap: nat) {
    exists k :: 0 <= k < |list| && list[k].heap == heap
  }

  ghost predicate NoHeapTwice(list: seq<Node>) {
    forall j, k :: 0 <= j < k < |list| ==> list[j].heap != list[k].heap
  }

  /** The user bytes of all heaps of a list. */
  function Total(list: seq<Node>, sizes: map<nat, nat>): nat {
    if list == [] then 0
    else Total(list[1..], sizes) + if list[0].heap in sizes then sizes[list[0].heap] else 0
  }

  function SizeOf(sizes: map<nat, nat>, heap: nat): nat {
    if heap in sizes then sizes[heap] else 0
  }

  lemma {:induction false} TotalAppend(list: seq<Node>, node: Node, sizes: map<nat, nat>)
    ensures Total(list + [node], sizes) == Total(list, sizes) + SizeOf(sizes, node.heap)
  {
    if list == [] {
      assert list + [node] == [node];
    } else {
      assert (list + [node])[1..] == list[1..] + [node];
      TotalAppend(list[1..], node, sizes);
    }
  }

  /** A heap that is not in the list does not count. */
  lemma {:induction false} TotalOthers(list: seq<Node>, sizes: map<nat, nat>, heap: nat, size: nat)
    requires !Holds(list, heap)
    ensures Total(list, sizes[heap := size]) == Total(list, sizes) && Total(list, sizes - {heap}) == Total(list, sizes)
  {
    if list != [] {
      assert list[0].heap != heap;
      forall k | 0 <= k < |list[1..]| ensures list[1..][k].heap != heap {
        assert list[1..][k] == list[k + 1];
      }
      TotalOthers(list[1..], sizes, heap, size);
    }
  }

  /** The size of one heap of the list changes. */
  lemma {:induction false} TotalChange(list: seq<Node>, sizes: map<nat, nat>, k: nat, size: nat)
    requires NoHeapTwice(list) && k < |list|
    ensures Total(list, sizes[list[k].heap := size]) + SizeOf(sizes, list[k].heap) == Total(list, sizes) + size
  {
    var heap, rest := list[k].heap, list[1..];
    if k == 0 {
      forall j | 0 <= j < |rest| ensures rest[j].heap != heap {
        assert rest[j] == list[j + 1];
      }
      TotalOthers(rest, sizes, heap, size);
    } else {
      assert rest[k - 1] == list[k] && list[0].heap != heap;
      TotalChange(rest, sizes, k - 1, size);
    }
  }

  function Without(list: seq<Node>, k: nat): seq<Node>
    requires k < |list|
  {
    list[..k] + list[k + 1..]
  }

  lemma {:induction false} TotalWithout(list: seq<Node>, sizes: map<nat, nat>, k: nat)
    requires k < |list|
    ensures Total(Without(list, k), sizes) + SizeOf(sizes, list[k].heap) == Total(list, sizes)
  {
    if k == 0 {
      assert Without(list, 0) == list[1..];
    } else {
      TotalWithout(list[1..], sizes, k - 1);
      assert Without(list, k)[1..] == Without(list[1..], k - 1);
    }
  }

  lemma WithoutHolds(list: seq<Node>, k: nat, heap: nat)
    requires k < |list| && NoHeapTwice(list)
    ensures NoHeapTwice(Without(list, k))
    ensures Holds(Without(list, k), heap) <==> Holds(list, heap) && heap != list[k].heap
  {
    var w := Without(list, k);
    assert forall j :: 0 <= j < |w| ==> w[j] == if j < k then list[j] else list[j + 1];
    if Holds(list, heap) && heap != list[k].heap {
      var j :| 0 <= j < |list| && list[j].heap == heap;
      assert w[if j < k then j else j - 1].heap == heap;
    }
  }

  lemma AppendHolds(list: seq<Node>, node: Node, heap: nat, atFront: bool)
    ensures Holds(if atFront then [node] + list else list + [node], heap) <==> Holds(list, heap) || heap == node.heap
  {
    var l := if atFront then [node] + list else list + [node];
    if heap == node.heap {
      assert l[if atFront then 0 else |list|].heap == heap;
    }
    if Holds(list, heap) {
      var j :| 0 <= j < |list| && list[j].heap == heap;
      assert l[if atFront then j + 1 else j].heap == heap;
    }
  }

  lemma InsertKeeps(list: seq<Node>, node: Node, atFront: bool)
    requires NoHeapTwice(list) && !Holds(list, node.heap)
    ensures NoHeapTwice(if atFront then [node] + list else list + [node])
  {
    var l := if atFront then [node] + list else list + [node];
    forall j, k | 0 <= j < k < |l| ensures l[j].heap != l[k].heap {
      if atFront {
        assert l[k] == list[k - 1] && (j > 0 ==> l[j] == list[j - 1]);
      } else {
        assert l[j] == list[j] && (k < |list| ==> l[k] == list[k]);
      }
    }
  }

  /** Every live heap is in the list of all heaps and in the cell it hashes to, once, and nowhere else. */
  ghost predicate SameHeaps(hash: nat -> nat, table: seq<seq<Node>>, all: seq<Node>, live: set<nat>) {
    && |table| == HASH_SIZE && NoHeapTwice(all) && (forall c :: 0 <= c < HASH_SIZE ==> NoHeapTwice(table[c]))
    && (forall h :: hash(h) < HASH_SIZE)
    && (forall c, h :: 0 <= c < HASH_SIZE ==> (Holds(table[c], h) <==> c == hash(h) && h in live))
    && (forall h :: Holds(all, h) <==> h in live)
  }

  lemma InsertedHeaps(hash: nat -> nat, table: seq<seq<Node>>, all: seq<Node>, live: set<nat>, node: Node)
    requires SameHeaps(hash, table, all, live) && node.heap !in live
    ensures var c := hash(node.heap);
      SameHeaps(hash, table[c := [node] + table[c]], all + [node], live + {node.heap})
  {
    hide Holds, NoHeapTwice;
    var c := hash(node.heap);
    InsertKeeps(table[c], node, true);
    InsertKeeps(all, node, false);
    forall h ensures Holds([node] + table[c], h) <==> Holds(table[c], h) || h == node.heap {
      AppendHolds(table[c], node, h, true);
    }
    forall h ensures Holds(all + [node], h) <==> Holds(all, h) || h == node.heap {
      AppendHolds(all, node, h, false);
    }
  }

  lemma RemovedHeaps(hash: nat -> nat, table: seq<seq<Node>>, all: seq<Node>, live: set<nat>, heap: nat, k: nat, a: nat)
    requires SameHeaps(hash, table, all, live) && k < |table[hash(heap)]| && a < |all|
    requires table[hash(heap)][k].heap == all[a].heap == heap
    ensures var c := hash(heap);
      SameHeaps(hash, table[c := Without(table[c], k)], Without(all, a), live - {heap})
  {
    hide Holds, NoHeapTwice, Without;
    var c := hash(heap);
    forall h ensures NoHeapTwice(Without(table[c], k)) && (Holds(Without(table[c], k), h) <==> Holds(table[c], h) && h != heap) {
      WithoutHolds(table[c], k, h);
    }
    forall h ensures NoHeapTwice(Without(all, a)) && (Holds(Without(all, a), h) <==> Holds(all, h) && h != heap) {
      WithoutHolds(all, a, h);
    }
  }

  lemma LiveHeap(hash: nat -> nat, table: seq<seq<Node>>, all: seq<Node>, live: set<nat>, heap: nat)
    requires SameHeaps(hash, table, all, live) && heap in live
    ensures |table| == HASH_SIZE && hash(heap) < HASH_SIZE && Holds(table[hash(heap)], heap) && Holds(all, heap)
    ensures NoHeapTwice(all)
  {
  }

  lemma HashRange(hash: nat -> nat, table: seq<seq<Node>>, all: seq<Node>, live: set<nat>, heap: nat)
    requires SameHeaps(hash, table, all, live)
    ensures |table| == HASH_SIZE && hash(heap) < HASH_SIZE && (heap !in live ==> !Holds(all, heap))
  {
  }

  ghost function NodesIn(table: seq<seq<Node>>): nat {
    if table == [] then 0 else NodesIn(table[..|table| - 1]) + |table[|table| - 1]|
  }

  lemma HeapsCons(list: seq<Node>)
    requires list != []
    ensures forall h :: Holds(list, h) <==> Holds(list[1..], h) || h == list[0].heap
  {
    forall h ensures Holds(list, h) <==> Holds(list[1..], h) || h == list[0].heap {
      AppendHolds(list[1..], list[0], h, true);
      assert list == [list[0]] + list[1..];
    }
  }

  ghost function HeapsOf(list: seq<Node>): (s: set<nat>)
    ensures forall h :: h in s <==> Holds(list, h)
  {
    if list == [] then {}
    else
      var s := HeapsOf(list[1..]) + {list[0].heap};
      HeapsCons(list);
      s
  }

  ghost function HeapsIn(table: seq<seq<Node>>): (s: set<nat>) {
    if table == [] then {} else HeapsIn(table[..|table| - 1]) + HeapsOf(table[|table| - 1])
  }

  lemma {:induction false} HeapsInCells(table: seq<seq<Node>>, h: nat)
    ensures h in HeapsIn(table) <==> exists c :: 0 <= c < |table| && Holds(table[c], h)
  {
    if table != [] {
      var front := table[..|table| - 1];
      HeapsInCells(front, h);
      if c :| 0 <= c < |front| && Holds(front[c], h) {
        assert Holds(table[c], h);
      }
      if c :| 0 <= c < |table| && Holds(table[c], h) {
        assert c < |front| ==> Holds(front[c], h);
      }
    }
  }

  lemma DisjointSizes(a: set<nat>, b: set<nat>)
    requires forall h :: h in a ==> h !in b
    ensures |a + b| == |a| + |b|
  {
    assert a !! b;
  }

  lemma {:induction false} ListHeaps(list: seq<Node>)
    requires NoHeapTwice(list)
    ensures |HeapsOf(list)| == |list|
  {
    if list != [] {
      ListHeaps(list[1..]);
      assert !Holds(list[1..], list[0].heap) by {
        forall k | 0 <= k < |list[1..]| ensures list[1..][k].heap != list[0].heap {
          assert list[1..][k] == list[k + 1];
        }
      }
    }
  }

  /** Cells without common heaps hold as many nodes as heaps. */
  lemma {:induction false} CellHeaps(hash: nat -> nat, table: seq<seq<Node>>)
    requires forall c :: 0 <= c < |table| ==> NoHeapTwice(table[c])
    requires forall c, h :: 0 <= c < |table| && Holds(table[c], h) ==> c == hash(h)
    ensures |HeapsIn(table)| == NodesIn(table)
  {
    hide Holds, NoHeapTwice, HeapsOf;
    if table != [] {
      var n := |table| - 1;
      var front := table[..n];
      assert forall c :: 0 <= c < n ==> front[c] == table[c];
      CellHeaps(hash, front);
      ListHeaps(table[n]);
      forall h | h in HeapsIn(front) ensures h !in HeapsOf(table[n]) {
        HeapsInCells(front, h);
        var c :| 0 <= c < n && Holds(front[c], h);
        assert c == hash(h);
      }
      DisjointSizes(HeapsIn(front), HeapsOf(table[n]));
    }
  }

  /** The cells hold as many nodes as the list of all heaps. */
  lemma NodesCount(hash: nat -> nat, table: seq<seq<Node>>, all: seq<Node>, live: set<nat>)
    requires SameHeaps(hash, table, all, live)
    ensures NodesIn(table) == |all|
  {
    CellHeaps(hash, table);
    ListHeaps(all);
    forall h ensures h in HeapsIn(table) <==> h in HeapsOf(all) {
      HeapsInCells(table, h);
      if h in live {
        LiveHeap(hash, table, all, live, h);
      }
    }
    assert HeapsIn(table) == HeapsOf(all);
  }

  lemma RemovedTotal(list: seq<Node>, sizes: map<nat, nat>, k: nat)
    requires NoHeapTwice(list) && k < |list|
    ensures Total(Without(list, k), sizes - {list[k].heap}) + SizeOf(sizes, list[k].heap) == Total(list, sizes)
    ensures |Without(list, k)| == |list| - 1
  {
    WithoutHolds(list, k, list[k].heap);
    TotalWithout(list, sizes, k);
    TotalOthers(Without(list, k), sizes, list[k].heap, 0);
  }

  /** mem_hash_table, mem_all_list_base and the counters, under mem_hash_mutex. `sizes` are the user bytes that
      validation finds in each live heap. */
  class Registry {
    const hash: nat -> nat  // ut_hash_ulint
    var table: seq<seq<Node>>
    var allList: seq<Node>
    var nCreatedHeaps: nat
    var nAllocations: nat
    var totalAllocated: nat
    var currentAllocated: int
    var maxAllocated: int
    ghost var sizes: map<nat, nat>

    ghost predicate Valid()
      reads this
    {
      && SameHeaps(hash, table, allList, sizes.Keys)
      && currentAllocated == Total(allList, sizes)
      && currentAllocated <= maxAllocated <= totalAllocated
      && |allList| <= nCreatedHeaps
    }

    /** mem_init. */
    constructor (hash: nat -> nat)
      requires forall h :: hash(h) < HASH_SIZE
      ensures Valid() && sizes == map[] && this.hash == hash
    {
      this.hash := hash;
      table := seq(HASH_SIZE, _ => []);
      allList, sizes := [], map[];
      nCreatedHeaps, nAllocations, totalAllocated, currentAllocated, maxAllocated := 0, 0, 0, 0, 0;
    }

    /** mem_hash_insert: a new heap has no user bytes yet. */
    method Insert(heap: nat)
      requires Valid() && heap !in sizes
      modifies this
      ensures Valid() && sizes == old(sizes)[heap := 0] && currentAllocated == old(currentAllocated)
    {
      hide SameHeaps, NoHeapTwice;
      HashRange(hash, table, allList, sizes.Keys, heap);
      var cellNo := hash(heap);
      var node := Node(heap, nCreatedHeaps);
      InsertedHeaps(hash, table, allList, sizes.Keys, node);
      TotalOthers(allList, sizes, heap, 0);
      TotalAppend(allList, node, sizes[heap := 0]);
      table := table[cellNo := [node] + table[cellNo]];
      allList := allList + [node];
      nCreatedHeaps := nCreatedHeaps + 1;
      assert sizes[heap := 0].Keys == sizes.Keys + {heap};
      sizes := sizes[heap := 0];
    }

    /** The statistics of mem_field_init: n more bytes for the user of a heap. */
    method CountInit(heap: nat, n: nat)
      requires Valid() && heap in sizes
      modifies this
      ensures Valid() && sizes == old(sizes)[heap := old(sizes)[heap] + n] && currentAllocated == old(currentAllocated) + n
    {
      hide SameHeaps, NoHeapTwice;
      LiveHeap(hash, table, allList, sizes.Keys, heap);
      ghost var k :| 0 <= k < |allList| && allList[k].heap == heap;
      TotalChange(allList, sizes, k, sizes[heap] + n);
      assert sizes[heap := sizes[heap] + n].Keys == sizes.Keys;
      totalAllocated := totalAllocated + n;
      currentAllocated := currentAllocated + n;
      nAllocations := nAllocations + 1;
      if currentAllocated > maxAllocated {
        maxAllocated := currentAllocated;
      }
      sizes := sizes[heap := sizes[heap] + n];
    }

    /** The statistics of mem_field_erase. */
    method CountErase(heap: nat, n: nat)
      requires Valid() && heap in sizes && n <= sizes[heap]
      modifies this
      ensures Valid() && sizes == old(sizes)[heap := old(sizes)[heap] - n] && currentAllocated == old(currentAllocated) - n
    {
      hide SameHeaps, NoHeapTwice;
      LiveHeap(hash, table, allList, sizes.Keys, heap);
      ghost var k :| 0 <= k < |allList| && allList[k].heap == heap;
      TotalChange(allList, sizes, k, sizes[heap] - n);
      assert sizes[heap := sizes[heap] - n].Keys == sizes.Keys;
      currentAllocated := currentAllocated - n;
      sizes := sizes[heap := sizes[heap] - n];
    }

    /** The checks of the counters in mem_validate_no_assert, after the heaps have been counted. */
    method CheckCounters(nHeaps: nat) returns (error: bool)
      requires Valid() && nHeaps == |allList|
      ensures !error
    {
      error := false;
      if nHeaps == 0 && currentAllocated != 0 {
        error := true;
      }
      if totalAllocated < currentAllocated {
        error := true;
      }
      if maxAllocated > totalAllocated {
        error := true;
      }
      if nCreatedHeaps < nHeaps {
        error := true;
      }
    }

    /** Position of a heap in a list; the search loop of mem_hash_remove. */
    static method Find(list: seq<Node>, heap: nat) returns (k: nat)
      requires Holds(list, heap)
      ensures k < |list| && list[k].heap == heap
    {
      k := 0;
      while list[k].heap != heap
        invariant k < |list| && forall j :: 0 <= j < k ==> list[j].heap != heap
        decreases |list| - k
      {
        k := k + 1;
      }
    }

    /** mem_hash_remove: `size` is what the validation of the heap reports. */
    method Remove(heap: nat, size: nat)
      requires Valid() && heap in sizes && size == sizes[heap]
      modifies this
      ensures Valid() && sizes == old(sizes) - {heap} && currentAllocated == old(currentAllocated) - size
    {
      hide SameHeaps, NoHeapTwice, Holds;
      LiveHeap(hash, table, allList, sizes.Keys, heap);
      var cellNo := hash(heap);
      var k := Find(table[cellNo], heap);
      var a := Find(allList, heap);
      RemovedHeaps(hash, table, allList, sizes.Keys, heap, k, a);
      RemovedTotal(allList, sizes, a);
      table := table[cellNo := Without(table[cellNo], k)];
      allList := Without(allList, a);
      assert (sizes - {heap}).Keys == sizes.Keys - {heap};
      sizes := sizes - {heap};
      currentAllocated := currentAllocated - size;
    }
  }

  lemma CellIsLive(hash: nat -> nat, table: seq<seq<Node>>, all: seq<Node>, live: set<nat>, c: nat, h: nat)
    requires SameHeaps(hash, table, all, live) && c < HASH_SIZE && Holds(table[c], h)
    ensures h in live
  {
  }
}
