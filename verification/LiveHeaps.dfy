/** The debug version of the memory heaps as a whole: blocks in memory, the register of live heaps, and the counters. */
module LiveHeaps {
  import opened Wrappers
  import opened Words
  import opened Codec
  import opened DebugFields
  import opened HeapRegistry

  const MEM_HEAP_BUFFER := 1
  const MEM_BLOCK_MAGIC_N := 764741555

  /** mem_block_info_t. All positions are addresses: the block takes `len` bytes from `base` on, and its fields stand
      from `start` to `free`. */
  datatype Block = Block(base: nat, len: nat, start: nat, free: nat, kind: nat)

  /** A heap is its list of blocks; its address is that of the first block. */
  datatype Heap = Heap(magic: nat, blocks: seq<Block>)

  // ----- mem_heap_validate_or_print

  /** No error, with the three sizes that are reported; an error; or a read behind the memory at hand. */
  datatype HeapVerdict = Good(userSize: nat, physicalSize: nat, nBlocks: nat) | Bad | Lost

  function WalkBlocks(w: nat, page: nat, mem: seq<Byte>, blocks: seq<Block>, user: nat, physical: nat, count: nat,
                      top: Option<nat>): HeapVerdict
    requires WordSize(w)
    decreases |blocks|
  {
    if blocks == [] then Good(user, physical, count)
    else
      var b := blocks[0];
      if b.kind == MEM_HEAP_BUFFER && b.len > page then Bad
      else
        match Walk(w, mem, b.start, b.free, user, top)
        case Reached(t) => Good(t, physical + b.len, count)
        case Sound(t) => WalkBlocks(w, page, mem, blocks[1..], t, physical + b.len, count + 1, top)
        case Broken => Bad
        case Outside => Lost
  }

  function Validation(w: nat, page: nat, mem: seq<Byte>, h: Heap, top: Option<nat>): HeapVerdict
    requires WordSize(w)
  {
    if h.magic != MEM_BLOCK_MAGIC_N then Bad else WalkBlocks(w, page, mem, h.blocks, 0, 0, 0, top)
  }

  function SizeSum(lens: seq<seq<nat>>): nat {
    if lens == [] then 0 else Sum(lens[0]) + SizeSum(lens[1..])
  }

  ghost function Sizes(lens: map<nat, seq<seq<nat>>>): map<nat, nat> {
    map h | h in lens :: SizeSum(lens[h])
  }

  /** The walk over the list of blocks, without printing. Sizes are zero after an error. */
  method ValidateHeap(w: nat, page: nat, mem: array<Byte>, h: Heap, top: Option<nat>)
    returns (error: bool, lost: bool, userSize: nat, physicalSize: nat, nBlocks: nat)
    requires WordSize(w)
    ensures match Validation(w, page, mem[..], h, top)
            case Good(u, p, n) => !error && !lost && userSize == u && physicalSize == p && nBlocks == n
            case Bad => error && !lost && userSize == physicalSize == nBlocks == 0
            case Lost => lost
  {
    hide Walk;
    error, lost, userSize, physicalSize, nBlocks := true, false, 0, 0, 0;
    if h.magic != MEM_BLOCK_MAGIC_N {
      return;
    }
    var total: nat, physLen: nat, blockCount: nat, i: nat := 0, 0, 0, 0;
    while i < |h.blocks|
      invariant i <= |h.blocks| && error && !lost && userSize == physicalSize == nBlocks == 0
      invariant WalkBlocks(w, page, mem[..], h.blocks[i..], total, physLen, blockCount, top)
                == Validation(w, page, mem[..], h, top)
    {
      var b := h.blocks[i];
      physLen := physLen + b.len;
      if b.kind == MEM_HEAP_BUFFER && b.len > page {
        return;
      }
      var verdict := ValidateBlock(w, mem, b.start, b.free, total, top);
      match verdict {
        case Reached(t) =>
          return false, false, t, physLen, blockCount;
        case Broken =>
          return;
        case Outside =>
          return true, true, 0, 0, 0;
        case Sound(t) =>
          total := t;
      }
      blockCount := blockCount + 1;
      i := i + 1;
    }
    return false, false, total, physLen, blockCount;
  }

  // ----- heaps in memory

  /** The block lies in memory and is filled with sound fields of the given lengths. */
  ghost predicate BlockFilled(w: nat, page: nat, mem: seq<Byte>, b: Block, lens: seq<nat>)
    requires WordSize(w)
  {
    && b.base <= b.start <= b.free <= b.base + b.len <= |mem|
    && (b.kind == MEM_HEAP_BUFFER ==> b.len <= page)
    && FilledWith(w, mem, b.start, b.free, lens)
  }

  ghost predicate HeapFilled(w: nat, page: nat, mem: seq<Byte>, address: nat, h: Heap, lens: seq<seq<nat>>)
    requires WordSize(w)
  {
    && h.magic == MEM_BLOCK_MAGIC_N && h.blocks != [] && h.blocks[0].base == address && |lens| == |h.blocks|
    && forall k :: 0 <= k < |h.blocks| ==> BlockFilled(w, page, mem, h.blocks[k], lens[k])
  }

  ghost predicate Apart(a: Block, b: Block) {
    a.base + a.len <= b.base || b.base + b.len <= a.base
  }

  ghost predicate AllApart(heaps: map<nat, Heap>) {
    forall g, h, i, j ::
      (g in heaps && h in heaps && 0 <= i < |heaps[g].blocks| && 0 <= j < |heaps[h].blocks| && (g != h || i != j)) ==>
        Apart(heaps[g].blocks[i], heaps[h].blocks[j])
  }

  /** No block of a live heap meets `b`. */
  ghost predicate Unused(heaps: map<nat, Heap>, b: Block) {
    forall g, i :: g in heaps && 0 <= i < |heaps[g].blocks| ==> Apart(heaps[g].blocks[i], b)
  }

  /** `lens` are the sizes users asked for, block by block, of every live heap. */
  ghost predicate Contents(w: nat, page: nat, mem: seq<Byte>, heaps: map<nat, Heap>, lens: map<nat, seq<seq<nat>>>)
    requires WordSize(w)
  {
    && lens.Keys == heaps.Keys
    && (forall h :: h in heaps ==> HeapFilled(w, page, mem, h, heaps[h], lens[h]))
    && AllApart(heaps)
  }

  function LenSum(blocks: seq<Block>): nat {
    if blocks == [] then 0 else blocks[0].len + LenSum(blocks[1..])
  }

  lemma {:induction false} SizeSumUpdate(lens: seq<seq<nat>>, k: nat, block: seq<nat>)
    requires k < |lens|
    ensures SizeSum(lens[k := block]) + Sum(lens[k]) == SizeSum(lens) + Sum(block)
  {
    hide Sum;
    if k == 0 {
      assert lens[k := block][1..] == lens[1..];
    } else {
      SizeSumUpdate(lens[1..], k - 1, block);
      assert lens[k := block][1..] == lens[1..][k - 1 := block];
    }
  }

  lemma {:induction false} SizeSumAppend(lens: seq<seq<nat>>, block: seq<nat>)
    ensures SizeSum(lens + [block]) == SizeSum(lens) + Sum(block)
  {
    hide Sum;
    if lens == [] {
      assert lens + [block] == [block] && [block][1..] == [];
    } else {
      SizeSumAppend(lens[1..], block);
      assert (lens + [block])[1..] == lens[1..] + [block];
    }
  }

  lemma SizesOf(lens: map<nat, seq<seq<nat>>>, h: nat, ls: seq<seq<nat>>)
    ensures Sizes(lens[h := ls]) == Sizes(lens)[h := SizeSum(ls)]
    ensures Sizes(lens - {h}) == Sizes(lens) - {h}
  {
    hide SizeSum;
  }

  lemma {:induction false} FilledBlocksWalk(w: nat, page: nat, mem: seq<Byte>, blocks: seq<Block>, lens: seq<seq<nat>>,
                                            user: nat, physical: nat, count: nat)
    requires WordSize(w) && |lens| == |blocks|
    requires forall k :: 0 <= k < |blocks| ==> BlockFilled(w, page, mem, blocks[k], lens[k])
    ensures WalkBlocks(w, page, mem, blocks, user, physical, count, None)
            == Good(user + SizeSum(lens), physical + LenSum(blocks), count + |blocks|)
    decreases |blocks|
  {
    hide Walk, Fields, AllAgree, Sum;
    if blocks != [] {
      var b := blocks[0];
      assert BlockFilled(w, page, mem, b, lens[0]);
      WalkOfFields(w, mem, b.start, lens[0], b.free, user);
      forall k | 0 <= k < |blocks[1..]| ensures BlockFilled(w, page, mem, blocks[1..][k], lens[1..][k]) {
        assert BlockFilled(w, page, mem, blocks[k + 1], lens[k + 1]);
      }
      FilledBlocksWalk(w, page, mem, blocks[1..], lens[1..], user + Sum(lens[0]), physical + b.len, count + 1);
    }
  }

  /** Every heap in memory validates, and what is reported is the sum over all its fields. */
  lemma FilledHeapValidates(w: nat, page: nat, mem: seq<Byte>, heaps: map<nat, Heap>, lens: map<nat, seq<seq<nat>>>, h: nat)
    requires WordSize(w) && Contents(w, page, mem, heaps, lens) && h in heaps
    ensures h in lens && Validation(w, page, mem, heaps[h], None)
                         == Good(SizeSum(lens[h]), LenSum(heaps[h].blocks), |heaps[h].blocks|)
  {
    hide WalkBlocks, BlockFilled, SizeSum, LenSum, AllApart;
    assert HeapFilled(w, page, mem, h, heaps[h], lens[h]);
    FilledBlocksWalk(w, page, mem, heaps[h].blocks, lens[h], 0, 0, 0);
  }

  // ----- what a change in one block leaves

  lemma BlockKept(w: nat, page: nat, a: seq<Byte>, b: seq<Byte>, block: Block, lens: seq<nat>)
    requires WordSize(w) && BlockFilled(w, page, a, block, lens) && |a| == |b|
    requires forall x :: block.base <= x < block.base + block.len ==> b[x] == a[x]
    ensures BlockFilled(w, page, b, block, lens)
  {
    hide Fields, AllAgree;
    FieldsBelow(w, a, b, block.start, lens, block.free);
  }

  lemma InMemory(w: nat, page: nat, mem: seq<Byte>, block: Block, lens: seq<nat>)
    requires WordSize(w) && BlockFilled(w, page, mem, block, lens)
    ensures block.base <= block.start <= block.free <= block.base + block.len <= |mem|
  {
  }

  /** One block is refilled, within its own memory: all the others stay as they are. */
  lemma Refilled(w: nat, page: nat, a: seq<Byte>, b: seq<Byte>, heaps: map<nat, Heap>, lens: map<nat, seq<seq<nat>>>,
                 h: nat, k: nat, block: Block, ls: seq<nat>)
    requires WordSize(w) && Contents(w, page, a, heaps, lens) && |a| == |b|
    requires h in heaps && k < |heaps[h].blocks| && block.base == heaps[h].blocks[k].base && block.len == heaps[h].blocks[k].len
    requires forall x :: 0 <= x < |a| && !(block.base <= x < block.base + block.len) ==> b[x] == a[x]
    requires BlockFilled(w, page, b, block, ls)
    ensures h in lens && k < |lens[h]|
    ensures Contents(w, page, b, heaps[h := heaps[h].(blocks := heaps[h].blocks[k := block])], lens[h := lens[h][k := ls]])
  {
    hide BlockFilled;
    var heaps' := heaps[h := heaps[h].(blocks := heaps[h].blocks[k := block])];
    assert HeapFilled(w, page, a, h, heaps[h], lens[h]);
    var lens' := lens[h := lens[h][k := ls]];
    forall g | g in heaps' ensures HeapFilled(w, page, b, g, heaps'[g], lens'[g]) {
      assert HeapFilled(w, page, a, g, heaps[g], lens[g]);
      forall j | 0 <= j < |heaps'[g].blocks| ensures BlockFilled(w, page, b, heaps'[g].blocks[j], lens'[g][j]) {
        if g != h || j != k {
          var other := heaps[g].blocks[j];
          assert BlockFilled(w, page, a, other, lens[g][j]) && Apart(other, heaps[h].blocks[k]);
          InMemory(w, page, a, other, lens[g][j]);
          BlockKept(w, page, a, b, other, lens[g][j]);
        }
      }
    }
    assert AllApart(heaps');
  }

  /** A heap with one empty block. */
  lemma HeapAdded(w: nat, page: nat, mem: seq<Byte>, heaps: map<nat, Heap>, lens: map<nat, seq<seq<nat>>>, block: Block)
    requires WordSize(w) && Contents(w, page, mem, heaps, lens) && block.base !in heaps && Unused(heaps, block)
    requires BlockFilled(w, page, mem, block, [])
    ensures Contents(w, page, mem, heaps[block.base := Heap(MEM_BLOCK_MAGIC_N, [block])], lens[block.base := [[]]])
  {
    hide BlockFilled;
    var heaps' := heaps[block.base := Heap(MEM_BLOCK_MAGIC_N, [block])];
    var lens' := lens[block.base := [[]]];
    forall g | g in heaps' ensures HeapFilled(w, page, mem, g, heaps'[g], lens'[g]) {
    }
  }

  /** One more empty block behind the others. */
  lemma BlockAdded(w: nat, page: nat, mem: seq<Byte>, heaps: map<nat, Heap>, lens: map<nat, seq<seq<nat>>>, h: nat, block: Block)
    requires WordSize(w) && Contents(w, page, mem, heaps, lens) && h in heaps && Unused(heaps, block)
    requires BlockFilled(w, page, mem, block, [])
    ensures h in lens
    ensures Contents(w, page, mem, heaps[h := heaps[h].(blocks := heaps[h].blocks + [block])], lens[h := lens[h] + [[]]])
  {
    hide BlockFilled;
    var heaps' := heaps[h := heaps[h].(blocks := heaps[h].blocks + [block])];
    var lens' := lens[h := lens[h] + [[]]];
    forall g | g in heaps' ensures HeapFilled(w, page, mem, g, heaps'[g], lens'[g]) {
      assert HeapFilled(w, page, mem, g, heaps[g], lens[g]);
    }
  }

  /** The last block goes, if it is not the only one. */
  lemma BlockGone(w: nat, page: nat, mem: seq<Byte>, heaps: map<nat, Heap>, lens: map<nat, seq<seq<nat>>>, h: nat)
    requires WordSize(w) && Contents(w, page, mem, heaps, lens) && h in heaps && |heaps[h].blocks| > 1
    ensures var n := |heaps[h].blocks| - 1;
      h in lens && n < |lens[h]|
      && Contents(w, page, mem, heaps[h := heaps[h].(blocks := heaps[h].blocks[..n])], lens[h := lens[h][..n]])
  {
    hide BlockFilled;
    var n := |heaps[h].blocks| - 1;
    assert HeapFilled(w, page, mem, h, heaps[h], lens[h]);
    var heaps' := heaps[h := heaps[h].(blocks := heaps[h].blocks[..n])];
    var lens' := lens[h := lens[h][..n]];
    forall g | g in heaps' ensures HeapFilled(w, page, mem, g, heaps'[g], lens'[g]) {
      assert HeapFilled(w, page, mem, g, heaps[g], lens[g]);
    }
  }

  lemma HeapGone(w: nat, page: nat, mem: seq<Byte>, heaps: map<nat, Heap>, lens: map<nat, seq<seq<nat>>>, h: nat)
    requires WordSize(w) && Contents(w, page, mem, heaps, lens)
    ensures Contents(w, page, mem, heaps - {h}, lens - {h})
  {
    hide HeapFilled;
  }

  /** What a block of a live heap is filled with. */
  lemma BlockOf(w: nat, page: nat, mem: seq<Byte>, heaps: map<nat, Heap>, lens: map<nat, seq<seq<nat>>>, h: nat, k: nat)
    requires WordSize(w) && Contents(w, page, mem, heaps, lens) && h in heaps && k < |heaps[h].blocks|
    ensures h in lens && |lens[h]| == |heaps[h].blocks| && BlockFilled(w, page, mem, heaps[h].blocks[k], lens[h][k])
  {
    assert HeapFilled(w, page, mem, h, heaps[h], lens[h]);
  }

  /** A field of n bytes behind the others of a block. */
  lemma FieldFits(w: nat, page: nat, a: seq<Byte>, b: seq<Byte>, block: Block, lens: seq<nat>, n: nat)
    requires WordSize(w) && BlockFilled(w, page, a, block, lens) && |a| == |b|
    requires block.free + SpaceNeeded(w, n) <= block.base + block.len
    requires FieldAt(w, b, block.free, n) && ChecksAgree(w, b, block.free, n)
    requires forall x :: 0 <= x < |a| && !(block.free <= x < block.free + SpaceNeeded(w, n)) ==> b[x] == a[x]
    ensures BlockFilled(w, page, b, block.(free := block.free + SpaceNeeded(w, n)), lens + [n])
    ensures Sum(lens + [n]) == Sum(lens) + n
  {
    hide Fields, AllAgree, FieldAt, ChecksAgree, SpaceNeeded, Sum;
    FieldsBelow(w, a, b, block.start, lens, block.free);
    FieldAppended(w, b, block.start, lens, block.free, n);
  }

  /** The last field of a block is given back. */
  lemma FieldReturned(w: nat, page: nat, a: seq<Byte>, b: seq<Byte>, block: Block, lens: seq<nat>)
    requires WordSize(w) && BlockFilled(w, page, a, block, lens) && |a| == |b| && lens != []
    ensures var n := lens[|lens| - 1];
      && block.free >= block.start + SpaceNeeded(w, n) && FieldAt(w, a, block.free - SpaceNeeded(w, n), n)
      && Sum(lens) == Sum(lens[..|lens| - 1]) + n
      && ((forall x :: 0 <= x < block.free - SpaceNeeded(w, n) ==> b[x] == a[x]) ==>
            BlockFilled(w, page, b, block.(free := block.free - SpaceNeeded(w, n)), lens[..|lens| - 1]))
  {
    hide Fields, AllAgree, FieldAt, ChecksAgree, SpaceNeeded, Sum;
    LastFieldGone(w, a, block.start, lens, block.free);
    var n := lens[|lens| - 1];
    if forall x :: 0 <= x < block.free - SpaceNeeded(w, n) ==> b[x] == a[x] {
      FieldsBelow(w, a, b, block.start, lens[..|lens| - 1], block.free - SpaceNeeded(w, n));
    }
  }

  lemma {:induction false} UserByteInside(w: nat, data: seq<Byte>, from: nat, lens: seq<nat>, to: nat, at: nat)
    requires WordSize(w) && Fields(w, data, from, lens, to) && UserByte(w, from, lens, at)
    ensures from <= at < to
    decreases |lens|
  {
    FieldsEnd(w, data, from, lens, to);
    FirstUserBytesEnd(w, from, lens[0]);
    FieldsEnd(w, data, from + SpaceNeeded(w, lens[0]), lens[1..], to);
    if !(User(w, from) <= at < User(w, from) + lens[0]) {
      UserByteInside(w, data, from + SpaceNeeded(w, lens[0]), lens[1..], to, at);
    }
  }

  /** A user writes one byte of a field. */
  lemma ByteWritten(w: nat, page: nat, a: seq<Byte>, block: Block, lens: seq<nat>, at: nat, value: Byte)
    requires WordSize(w) && BlockFilled(w, page, a, block, lens) && at < |a| && UserByte(w, block.start, lens, at)
    ensures BlockFilled(w, page, a[at := value], block, lens) && block.base <= at < block.base + block.len
  {
    hide AllAgree, Fields;
    UserByteInside(w, a, block.start, lens, block.free, at);
    UserWritesAreInvisible(w, a, a[at := value], block.start, lens, block.free);
  }

  lemma NoBytes()
    ensures Sum([]) == 0
  {
  }

  lemma SizeAtLeast(lens: map<nat, seq<seq<nat>>>, h: nat, k: nat)
    requires h in lens && k < |lens[h]|
    ensures h in Sizes(lens) && Sizes(lens)[h] >= Sum(lens[h][k])
  {
    hide Sum;
    SizeSumUpdate(lens[h], k, []);
    NoBytes();
  }

  lemma SizeAt(lens: map<nat, seq<seq<nat>>>, h: nat)
    requires h in lens
    ensures h in Sizes(lens) && Sizes(lens)[h] == SizeSum(lens[h])
  {
  }

  lemma KeysOf(w: nat, page: nat, mem: seq<Byte>, heaps: map<nat, Heap>, lens: map<nat, seq<seq<nat>>>)
    requires WordSize(w) && Contents(w, page, mem, heaps, lens)
    ensures lens.Keys == heaps.Keys
  {
  }

  lemma EmptyBlockIff(w: nat, page: nat, mem: seq<Byte>, block: Block, lens: seq<nat>)
    requires WordSize(w) && BlockFilled(w, page, mem, block, lens)
    ensures block.free == block.start <==> lens == []
  {
    FieldsEnd(w, mem, block.start, lens, block.free);
  }

  /** Memory, heaps and register. Each method is one step of a run: creating a heap or a block, making a field, writing
      into one, giving the last one back, freeing a heap. */
  class DebugMemory {
    const w: nat         // sizeof(ulint)
    const pageSize: nat  // UNIV_PAGE_SIZE
    const memory: array<Byte>
    const registry: Registry
    var heaps: map<nat, Heap>
    ghost var lens: map<nat, seq<seq<nat>>>

    /** The register lists the live heaps, whatever their blocks hold. */
    ghost predicate Listed()
      reads this, registry
    {
      WordSize(w) && registry.Valid() && registry.sizes.Keys == heaps.Keys
    }

    /** The blocks of all live heaps are filled with sound fields, and what the counters count are these fields. */
    ghost predicate Valid()
      reads this, registry, memory
    {
      && Listed()
      && Contents(w, pageSize, memory[..], heaps, lens)
      && registry.sizes == Sizes(lens)
    }

    constructor (w: nat, pageSize: nat, memory: array<Byte>, hash: nat -> nat)
      requires WordSize(w) && forall h :: hash(h) < HASH_SIZE
      ensures Valid() && heaps == map[] && this.memory == memory && fresh(registry)
    {
      this.w, this.pageSize, this.memory := w, pageSize, memory;
      registry := new Registry(hash);
      heaps, lens := map[], map[];
    }

    /** In every reachable state every heap validates, what is reported is the sum over all its fields, and the
        current memory is the sum over all fields of all heaps. */
    lemma EveryHeapValidates()
      requires Valid()
      ensures heaps.Keys == lens.Keys == registry.sizes.Keys
      ensures forall h :: h in heaps ==>
                && registry.sizes[h] == SizeSum(lens[h])
                && Validation(w, pageSize, memory[..], heaps[h], None)
                   == Good(registry.sizes[h], LenSum(heaps[h].blocks), |heaps[h].blocks|)
      ensures registry.currentAllocated == Total(registry.allList, Sizes(lens))
    {
      forall h | h in heaps
        ensures h in lens && Validation(w, pageSize, memory[..], heaps[h], None)
                             == Good(SizeSum(lens[h]), LenSum(heaps[h].blocks), |heaps[h].blocks|)
      {
        FilledHeapValidates(w, pageSize, memory[..], heaps, lens, h);
      }
    }

    /** mem_heap_create and mem_hash_insert. */
    method Create(block: Block)
      requires Valid() && block.base !in heaps && Unused(heaps, block)
      requires BlockFilled(w, pageSize, memory[..], block, [])
      modifies this, registry
      ensures Valid() && heaps == old(heaps)[block.base := Heap(MEM_BLOCK_MAGIC_N, [block])]
      ensures lens == old(lens)[block.base := [[]]]
    {
      hide Contents, Registry.Valid, BlockFilled, Unused;
      HeapAdded(w, pageSize, memory[..], heaps, lens, block);
      SizesOf(lens, block.base, [[]]);
      assert SizeSum([[]]) == 0;
      registry.Insert(block.base);
      heaps := heaps[block.base := Heap(MEM_BLOCK_MAGIC_N, [block])];
      lens := lens[block.base := [[]]];
    }

    /** mem_heap_add_block. */
    method AddBlock(h: nat, block: Block)
      requires Valid() && h in heaps && Unused(heaps, block)
      requires BlockFilled(w, pageSize, memory[..], block, [])
      modifies this
      ensures Valid() && h in old(lens)
      ensures heaps == old(heaps)[h := old(heaps)[h].(blocks := old(heaps)[h].blocks + [block])]
      ensures lens == old(lens)[h := old(lens)[h] + [[]]]
    {
      hide Contents, Registry.Valid, BlockFilled, Unused;
      BlockAdded(w, pageSize, memory[..], heaps, lens, h, block);
      SizesOf(lens, h, lens[h] + [[]]);
      SizeSumAppend(lens[h], []);
      heaps := heaps[h := heaps[h].(blocks := heaps[h].blocks + [block])];
      lens := lens[h := lens[h] + [[]]];
    }

    /** mem_heap_alloc with mem_field_init, when the last block has room. */
    method MakeField(h: nat, n: nat, rnd: nat, coins: seq<bool>)
      requires Valid() && h in heaps && heaps[h].blocks != [] && n < TWO32 && |coins| == n
      requires var b := heaps[h].blocks[|heaps[h].blocks| - 1]; b.free + SpaceNeeded(w, n) <= b.base + b.len
      modifies this, registry, memory
      ensures Valid() && h in old(lens) && |old(lens)[h]| == |old(heaps)[h].blocks|
      ensures var k := |old(heaps)[h].blocks| - 1;
        var b := old(heaps)[h].blocks[k];
        && lens == old(lens)[h := old(lens)[h][k := old(lens)[h][k] + [n]]]
        && heaps == old(heaps)[h := old(heaps)[h].(blocks := old(heaps)[h].blocks[k := b.(free := b.free + SpaceNeeded(w, n))])]
      ensures registry.currentAllocated == old(registry.currentAllocated) + n
    {
      hide Contents, Registry.Valid, BlockFilled, FieldAt, ChecksAgree, SpaceNeeded, Sum, Sizes;
      ghost var before := memory[..];
      var k := |heaps[h].blocks| - 1;
      var block := heaps[h].blocks[k];
      BlockOf(w, pageSize, before, heaps, lens, h, k);
      InMemory(w, pageSize, before, block, lens[h][k]);
      FieldInit(w, memory, block.free, n, rnd, coins);
      FieldFits(w, pageSize, before, memory[..], block, lens[h][k], n);
      ghost var ls := lens[h][k] + [n];
      var block' := block.(free := block.free + SpaceNeeded(w, n));
      Refilled(w, pageSize, before, memory[..], heaps, lens, h, k, block', ls);
      PutBlock(h, k, block', ls);
      registry.CountInit(h, n);
    }

    /** The block of a heap is what it has become. */
    method PutBlock(h: nat, k: nat, block: Block, ghost ls: seq<nat>)
      requires h in heaps && k < |heaps[h].blocks| && h in lens && k < |lens[h]|
      modifies this
      ensures heaps == old(heaps)[h := old(heaps)[h].(blocks := old(heaps)[h].blocks[k := block])]
      ensures lens == old(lens)[h := old(lens)[h][k := ls]]
      ensures h in Sizes(old(lens)) && h in Sizes(lens)
      ensures Sizes(lens)[h] + Sum(old(lens)[h][k]) == Sizes(old(lens))[h] + Sum(ls)
      ensures Sizes(lens) == Sizes(old(lens))[h := Sizes(lens)[h]]
    {
      hide Sum, SizeSum;
      SizesOf(lens, h, lens[h][k := ls]);
      SizeSumUpdate(lens[h], k, ls);
      heaps := heaps[h := heaps[h].(blocks := heaps[h].blocks[k := block])];
      lens := lens[h := lens[h][k := ls]];
    }

    /** A user writes into one of the fields. */
    method Write(h: nat, k: nat, at: nat, value: Byte)
      requires Valid() && h in heaps && k < |heaps[h].blocks| && at < memory.Length
      requires h in lens && k < |lens[h]| && UserByte(w, heaps[h].blocks[k].start, lens[h][k], at)
      modifies memory
      ensures Valid() && memory[..] == old(memory[..])[at := value]
    {
      hide Contents, Registry.Valid, BlockFilled, UserByte;
      ghost var before := memory[..];
      BlockOf(w, pageSize, before, heaps, lens, h, k);
      ByteWritten(w, pageSize, before, heaps[h].blocks[k], lens[h][k], at, value);
      Refilled(w, pageSize, before, before[at := value], heaps, lens, h, k, heaps[h].blocks[k], lens[h][k]);
      memory[at] := value;
      assert memory[..] == before[at := value];
      assert heaps[h].blocks[k := heaps[h].blocks[k]] == heaps[h].blocks && lens[h][k := lens[h][k]] == lens[h];
      assert heaps[h := heaps[h].(blocks := heaps[h].blocks)] == heaps && lens[h := lens[h]] == lens;
    }

    /** mem_field_erase of the last field, of n bytes, and mem_heap_free_top; a block left empty goes, if it is not the
        first. */
    method ReturnField(h: nat, n: nat, coins: seq<bool>)
      requires Valid() && h in heaps && h in lens && heaps[h].blocks != [] && |lens[h]| == |heaps[h].blocks|
      requires var last := lens[h][|lens[h]| - 1]; last != [] && last[|last| - 1] == n
      requires |coins| == SpaceNeeded(w, n)
      modifies this, registry, memory
      ensures Valid() && registry.currentAllocated == old(registry.currentAllocated) - n
      ensures var k := |old(lens)[h]| - 1;
        var ls := old(lens)[h][k][..|old(lens)[h][k]| - 1];
        lens == if k > 0 && ls == [] then old(lens)[h := old(lens)[h][..k]] else old(lens)[h := old(lens)[h][k := ls]]
    {
      hide Contents, Registry.Valid, BlockFilled, FieldAt, ChecksAgree, SpaceNeeded, Sum, Sizes;
      ghost var before := memory[..];
      var k := |heaps[h].blocks| - 1;
      var block := heaps[h].blocks[k];
      BlockOf(w, pageSize, before, heaps, lens, h, k);
      InMemory(w, pageSize, before, block, lens[h][k]);
      ghost var ls := lens[h][k][..|lens[h][k]| - 1];
      FieldReturned(w, pageSize, before, before, block, lens[h][k]);
      var free := block.free - SpaceNeeded(w, n);
      EraseBuf(memory, free, SpaceNeeded(w, n), coins);
      FieldReturned(w, pageSize, before, memory[..], block, lens[h][k]);
      var block' := block.(free := free);
      Refilled(w, pageSize, before, memory[..], heaps, lens, h, k, block', ls);
      SizeAtLeast(lens, h, k);
      PutBlock(h, k, block', ls);
      registry.CountErase(h, n);
      EmptyBlockIff(w, pageSize, memory[..], block', ls);
      if k > 0 && block'.free == block'.start {
        DropBlock(h, k);
        assert old(lens)[h][k := ls][..k] == old(lens)[h][..k];
      }
    }

    /** mem_heap_block_free of an empty last block. */
    method DropBlock(h: nat, k: nat)
      requires Valid() && h in heaps && k > 0 && |heaps[h].blocks| == k + 1
      requires heaps[h].blocks[k].free == heaps[h].blocks[k].start
      modifies this
      ensures Valid() && heaps == old(heaps)[h := old(heaps)[h].(blocks := old(heaps)[h].blocks[..k])]
      ensures h in old(lens) && |old(lens)[h]| == k + 1 && lens == old(lens)[h := old(lens)[h][..k]]
    {
      hide Contents, Registry.Valid, BlockFilled, Sum;
      BlockOf(w, pageSize, memory[..], heaps, lens, h, k);
      EmptyBlockIff(w, pageSize, memory[..], heaps[h].blocks[k], lens[h][k]);
      NoBytes();
      BlockGone(w, pageSize, memory[..], heaps, lens, h);
      SizesOf(lens, h, lens[h][..k]);
      SizeSumAppend(lens[h][..k], lens[h][k]);
      assert lens[h] == lens[h][..k] + [lens[h][k]];
      heaps := heaps[h := heaps[h].(blocks := heaps[h].blocks[..k])];
      lens := lens[h := lens[h][..k]];
      assert registry.sizes[h := registry.sizes[h]] == registry.sizes;
    }

    /** mem_hash_remove, with its validation: the heap is taken out of the lists, and its fields out of the current
        memory. `stopped` is the abort for an unknown or a broken heap. */
    method HashRemove(h: nat) returns (stopped: bool)
      requires Valid()
      modifies this, registry
      ensures Valid() && (stopped <==> h !in old(heaps))
      ensures heaps == old(heaps) - {h} && lens == old(lens) - {h}
      ensures !stopped ==> h in old(lens)
                           && registry.currentAllocated == old(registry.currentAllocated) - SizeSum(old(lens)[h])
    {
      hide Contents, Registry.Valid, SizeSum, Validation, Sizes, Total;
      KeysOf(w, pageSize, memory[..], heaps, lens);
      if h !in heaps {
        assert heaps - {h} == heaps && lens - {h} == lens;
        return true;
      }
      FilledHeapValidates(w, pageSize, memory[..], heaps, lens, h);
      SizeAt(lens, h);
      var error, lost, size, _, _ := ValidateHeap(w, pageSize, memory, heaps[h], None);
      if error {
        return true;
      }
      HeapGone(w, pageSize, memory[..], heaps, lens, h);
      SizesOf(lens, h, []);
      registry.Remove(h, size);
      heaps := heaps - {h};
      lens := lens - {h};
      stopped := false;
    }

    /** mem_validate_no_assert: an error iff some live heap does not validate, whatever its blocks hold. `lost` is a
        read behind the memory at hand, which damaged blocks can cause. */
    method ValidateNoAssert() returns (error: bool, lost: bool)
      requires Listed()
      ensures error || lost <==> exists h :: h in heaps && !Validation(w, pageSize, memory[..], heaps[h], None).Good?
      ensures error && !lost ==> exists h :: h in heaps && Validation(w, pageSize, memory[..], heaps[h], None).Bad?
      ensures lost ==> exists h :: h in heaps && Validation(w, pageSize, memory[..], heaps[h], None).Lost?
      ensures Valid() ==> !error && !lost
    {
      hide Contents, SameHeaps, HeapRegistry.Holds, NoHeapTwice, Validation, SizeSum;
      if Valid() {
        EveryHeapValidates();
      }
      error, lost := false, false;
      HashRange(registry.hash, registry.table, registry.allList, heaps.Keys, 0);
      var nHeaps := 0;
      for i := 0 to HASH_SIZE
        invariant nHeaps == NodesIn(registry.table[..i]) && !error && !lost
        invariant forall c, h :: 0 <= c < i && HeapRegistry.Holds(registry.table[c], h) ==>
                    h in heaps && Validation(w, pageSize, memory[..], heaps[h], None).Good?
      {
        error, lost := ValidateCell(i);
        if error || lost {
          return;
        }
        nHeaps := nHeaps + |registry.table[i]|;
        assert registry.table[..i + 1][..i] == registry.table[..i];
      }
      assert registry.table[..HASH_SIZE] == registry.table;
      NodesCount(registry.hash, registry.table, registry.allList, heaps.Keys);
      error := registry.CheckCounters(nHeaps);
      forall h | h in heaps ensures Validation(w, pageSize, memory[..], heaps[h], None).Good? {
        LiveHeap(registry.hash, registry.table, registry.allList, heaps.Keys, h);
      }
    }

    /** The heaps of one cell. */
    method ValidateCell(i: nat) returns (error: bool, lost: bool)
      requires Listed() && i < HASH_SIZE && |registry.table| == HASH_SIZE
      ensures !error && !lost ==> forall h :: HeapRegistry.Holds(registry.table[i], h) ==>
                h in heaps && Validation(w, pageSize, memory[..], heaps[h], None).Good?
      ensures error && !lost ==> exists h :: h in heaps && Validation(w, pageSize, memory[..], heaps[h], None).Bad?
      ensures lost ==> exists h :: h in heaps && Validation(w, pageSize, memory[..], heaps[h], None).Lost?
    {
      hide SameHeaps, NoHeapTwice, Validation;
      var cell := registry.table[i];
      for j := 0 to |cell|
        invariant forall l :: 0 <= l < j ==>
                    cell[l].heap in heaps && Validation(w, pageSize, memory[..], heaps[cell[l].heap], None).Good?
      {
        var h := cell[j].heap;
        assert HeapRegistry.Holds(cell, h);
        CellIsLive(registry.hash, registry.table, registry.allList, heaps.Keys, i, h);
        var e, l, _, _, _ := ValidateHeap(w, pageSize, memory, heaps[h], None);
        if e || l {
          return e, l;
        }
      }
      return false, false;
    }
  }
}
