/** What `heap_malloc` and `heap_free` do to the set of live runs, and what
    follows for every sequence of calls (src/memory/heap/heap.c). */
module HeapOps {
  import opened Machine
  import opened HeapRuns

  /** Round a size up to whole blocks in `size_t` arithmetic, wrapping at 2^32. */
  function AlignUp(val: U32): U32 {
    if val % BLOCK_SIZE == 0 then val
    else ToU32(val - val % BLOCK_SIZE + BLOCK_SIZE)
  }

  function BlocksFor(size: U32): nat {
    AlignUp(size) / BLOCK_SIZE
  }

  /** The block count is the exact ceiling, except that sizes in the last page
      of the address space wrap to zero blocks. */
  lemma BlocksForIsCeiling(size: U32)
    ensures size <= U32_LIMIT - BLOCK_SIZE ==>
      BlocksFor(size) * BLOCK_SIZE >= size && (size > 0 ==> (BlocksFor(size) - 1) * BLOCK_SIZE < size)
    ensures size > U32_LIMIT - BLOCK_SIZE ==> BlocksFor(size) == 0
  {
    var q, r := size / BLOCK_SIZE, size % BLOCK_SIZE;
    assert size == q * BLOCK_SIZE + r;
    if r != 0 {
      assert size - r + BLOCK_SIZE == (q + 1) * BLOCK_SIZE;
    }
  }

  /** Search for the least block from `from` on that starts n free blocks. */
  ghost function FitFrom(table: seq<bv8>, n: nat, from: nat): (r: Option<nat>)
    requires n >= 1
    ensures r.Some? ==> FreeAt(table, r.value, n) && forall j | from <= j < r.value :: !FreeAt(table, j, n)
    ensures r.None? ==> forall j | from <= j :: !FreeAt(table, j, n)
    decreases |table| - from
  {
    if FreeAt(table, from, n) then Some(from)
    else if from >= |table| then None
    else FitFrom(table, n, from + 1)
  }

  /** The block `heap_malloc` picks, or None where it returns a null pointer. */
  ghost function Fit(live: Live, total: nat, size: U32): (r: Option<nat>)
    ensures r.Some? ==> BlocksFor(size) >= 1 && IsFirstFit(Encode(live, total), BlocksFor(size), r.value)
    ensures r.None? <==> size == 0 || BlocksFor(size) == 0 || !HasRoom(Encode(live, total), BlocksFor(size))
  {
    if size == 0 || BlocksFor(size) == 0 then None
    else FitFrom(Encode(live, total), BlocksFor(size), 0)
  }

  ghost function AfterMalloc(live: Live, total: nat, size: U32): Live {
    match Fit(live, total, size)
    case Some(b) => live[b := BlocksFor(size)]
    case None => live
  }

  /** The live runs after an allocation, or None where it returns a null pointer. */
  ghost function Alloc(live: Live, total: nat, size: nat): Option<Live> {
    if size < U32_LIMIT && Fit(live, total, size).Some? then Some(AfterMalloc(live, total, size)) else None
  }

  /** Address arithmetic of the heap that starts at saddr. */
  function AddrOf(saddr: U32, b: nat): nat {
    saddr + b * BLOCK_SIZE
  }

  /** The block a pointer into the heap lies in. */
  function BlockOf(saddr: U32, ptr: U32): nat {
    if saddr <= ptr then (ptr - saddr) / BLOCK_SIZE else 0
  }

  lemma AddrRoundTrip(saddr: U32, b: nat)
    requires saddr % BLOCK_SIZE == 0 && AddrOf(saddr, b) < U32_LIMIT
    ensures saddr <= AddrOf(saddr, b) && AddrOf(saddr, b) % BLOCK_SIZE == 0
    ensures BlockOf(saddr, AddrOf(saddr, b)) == b
  {
  }

  /** The pointer is the address of the first block of a live run. */
  ghost predicate IsLivePtr(live: Live, saddr: U32, ptr: U32) {
    ptr != 0 && saddr <= ptr && ptr % BLOCK_SIZE == 0 && BlockOf(saddr, ptr) in live
  }


  /** Those pointers are the addresses of the first blocks of live runs: interior,
      misaligned and outside pointers are not among them. */
  lemma LivePtrIff(live: Live, saddr: U32, ptr: U32)
    requires saddr != 0 && saddr % BLOCK_SIZE == 0
    ensures IsLivePtr(live, saddr, ptr) <==> exists b: nat :: b in live && ptr == AddrOf(saddr, b)
  {
    if IsLivePtr(live, saddr, ptr) {
      var b := BlockOf(saddr, ptr);
      assert ptr == AddrOf(saddr, b);
    }
    if b: nat :| b in live && ptr == AddrOf(saddr, b) {
      AddrRoundTrip(saddr, b);
    }
  }

  ghost function AfterFree(live: Live, saddr: U32, ptr: U32): Live {
    if IsLivePtr(live, saddr, ptr) then live - {BlockOf(saddr, ptr)} else live
  }

  datatype HeapOp = Malloc(size: U32) | Free(ptr: U32)

  ghost function After(live: Live, total: nat, saddr: U32, op: HeapOp): Live {
    match op
    case Malloc(size) => AfterMalloc(live, total, size)
    case Free(ptr) => AfterFree(live, saddr, ptr)
  }

  ghost function AfterAll(live: Live, total: nat, saddr: U32, ops: seq<HeapOp>): Live
    decreases |ops|
  {
    if ops == [] then live
    else AfterAll(After(live, total, saddr, ops[0]), total, saddr, ops[1..])
  }

  lemma MallocKeepsRuns(live: Live, total: nat, size: U32)
    requires RunsOk(live, total)
    ensures RunsOk(AfterMalloc(live, total, size), total)
  {
    var fit := Fit(live, total, size);
    if fit.Some? {
      EncodeAdd(live, total, fit.value, BlocksFor(size));
    }
  }

  lemma FreeKeepsRuns(live: Live, total: nat, saddr: U32, ptr: U32)
    requires RunsOk(live, total)
    ensures RunsOk(AfterFree(live, saddr, ptr), total)
  {
    if IsLivePtr(live, saddr, ptr) {
      EncodeRemove(live, total, BlockOf(saddr, ptr));
    }
  }

  /** Any sequence of calls with any arguments, started on an empty heap, keeps
      the runs disjoint and loses or duplicates no block. */
  lemma {:induction false} EveryRunIsSound(live: Live, total: nat, saddr: U32, ops: seq<HeapOp>)
    requires RunsOk(live, total)
    ensures RunsOk(AfterAll(live, total, saddr, ops), total)
    ensures var live' := AfterAll(live, total, saddr, ops);
      CountFree(Encode(live', total)) + LiveBlocks(live') == total
    decreases |ops|
  {
    if ops == [] {
      BlocksConserved(live, total);
    } else {
      match ops[0] {
        case Malloc(size) => MallocKeepsRuns(live, total, size);
        case Free(ptr) => FreeKeepsRuns(live, total, saddr, ptr);
      }
      EveryRunIsSound(After(live, total, saddr, ops[0]), total, saddr, ops[1..]);
    }
  }

  /** Freeing what was just allocated gives back the heap, and so the table. */
  lemma FreeUndoesMalloc(live: Live, total: nat, saddr: U32, size: U32)
    requires RunsOk(live, total) && Fit(live, total, size).Some?
    requires saddr != 0 && saddr % BLOCK_SIZE == 0 && AddrOf(saddr, total) < U32_LIMIT
    ensures AddrOf(saddr, Fit(live, total, size).value) < U32_LIMIT
    ensures AfterFree(AfterMalloc(live, total, size), saddr, AddrOf(saddr, Fit(live, total, size).value)) == live
  {
    var b := Fit(live, total, size).value;
    EncodeAdd(live, total, b, BlocksFor(size));
    AddrRoundTrip(saddr, b);
    assert live[b := BlocksFor(size)] - {b} == live;
  }

  lemma FreesCommute(live: Live, saddr: U32, p: U32, q: U32)
    ensures AfterFree(AfterFree(live, saddr, p), saddr, q) == AfterFree(AfterFree(live, saddr, q), saddr, p)
  {
    if IsLivePtr(live, saddr, p) && IsLivePtr(live, saddr, q) {
      var bp, bq := BlockOf(saddr, p), BlockOf(saddr, q);
      assert (live - {bp}) - {bq} == (live - {bq}) - {bp};
    }
  }

  function Frees(ptrs: seq<U32>): seq<HeapOp> {
    seq(|ptrs|, i requires 0 <= i < |ptrs| => Free(ptrs[i]))
  }

  /** Freeing all live pointers, in any order and with any other pointers mixed
      in, leaves the table `heap_create` left. */
  lemma {:induction false} FreeingAllEmptiesHeap(live: Live, total: nat, saddr: U32, ptrs: seq<U32>)
    requires RunsOk(live, total)
    requires saddr != 0 && saddr % BLOCK_SIZE == 0 && AddrOf(saddr, total) < U32_LIMIT
    requires forall b | b in live :: AddrOf(saddr, b) in ptrs
    ensures AfterAll(live, total, saddr, Frees(ptrs)) == map[]
    ensures Encode(map[], total) == seq(total, _ => FREE)
    decreases |ptrs|
  {
    EncodeEmpty(total);
    if ptrs == [] {
      assert live == map[];
    } else {
      var live' := AfterFree(live, saddr, ptrs[0]);
      FreeKeepsRuns(live, total, saddr, ptrs[0]);
      forall b | b in live' ensures AddrOf(saddr, b) in ptrs[1..] {
        assert AddrOf(saddr, b) in ptrs;
        AddrRoundTrip(saddr, b);
        assert AddrOf(saddr, b) != ptrs[0];
      }
      FreeingAllEmptiesHeap(live', total, saddr, ptrs[1..]);
      assert Frees(ptrs)[1..] == Frees(ptrs[1..]);
    }
  }

  /** A free never turns a request that would succeed into one that fails. */
  lemma FreeKeepsMallocSucceeding(live: Live, total: nat, saddr: U32, ptr: U32, size: U32)
    requires RunsOk(live, total) && Fit(live, total, size).Some?
    ensures Fit(AfterFree(live, saddr, ptr), total, size).Some?
  {
    if IsLivePtr(live, saddr, ptr) {
      assert FreeAt(Encode(live, total), Fit(live, total, size).value, BlocksFor(size));
      RoomAfterRemove(live, total, BlockOf(saddr, ptr), BlocksFor(size));
    }
  }

  // ------------------------------------------------------- room on the heap

  /** The longest stretch of free blocks that these runs leave. */
  ghost function RoomOf(live: Live, total: nat): nat {
    LongestFree(Encode(live, total))
  }

  /** An allocation succeeds exactly when its blocks fit in the longest free
      stretch, and takes no more than them from it. */
  lemma AllocRoom(live: Live, total: nat, size: U32)
    requires RunsOk(live, total)
    ensures Alloc(live, total, size).Some? <==> size > 0 && 1 <= BlocksFor(size) <= RoomOf(live, total)
    ensures Alloc(live, total, size).Some? ==>
      var live' := Alloc(live, total, size).value;
      && RunsOk(live', total) && live.Keys <= live'.Keys
      && RoomOf(live', total) + BlocksFor(size) >= RoomOf(live, total)
  {
    var fit := Fit(live, total, size);
    if fit.Some? {
      assert FreeAt(Encode(live, total), fit.value, BlocksFor(size));
      EncodeAdd(live, total, fit.value, BlocksFor(size));
      RoomAfterFirstFit(live, total, BlocksFor(size), RoomOf(live, total), fit.value);
    }
  }

  /** Releasing any of the live runs leaves at least as much room. */
  lemma RoomGrows(live: Live, total: nat, released: set<nat>)
    requires RunsOk(live, total)
    ensures RunsOk(live - released, total)
    ensures RoomOf(live - released, total) >= RoomOf(live, total)
  {
    var live', n := live - released, RoomOf(live, total);
    var b :| FreeAt(Encode(live, total), b, n);
    assert FreeAt(Encode(live, total), b, n);
    forall i | b <= i < b + n ensures IsFree(Encode(live', total)[i]) {
      FreeIffUncovered(live, total, i);
      FreeIffUncovered(live', total, i);
      assert forall s: nat | Covers(live', s, i) :: Covers(live, s, i);
    }
    assert FreeAt(Encode(live', total), b, n) && HasRoom(Encode(live', total), n);
  }

  // ------------------------------------------------- lists of owned blocks

  /** The live runs after one-block allocations at these blocks. */
  ghost function WithBlocks(live: Live, blocks: seq<nat>): Live {
    if blocks == [] then live
    else WithBlocks(live, blocks[..|blocks| - 1])[blocks[|blocks| - 1] := 1]
  }

  ghost function WithoutBlocks(live: Live, blocks: seq<nat>): Live {
    live - set b | b in blocks
  }

  ghost predicate Distinct(blocks: seq<nat>) {
    forall i, j | 0 <= i < j < |blocks| :: blocks[i] != blocks[j]
  }

  /** The blocks are new one-block allocations on top of base. */
  ghost predicate Added(base: Live, live: Live, blocks: seq<nat>) {
    && live == WithBlocks(base, blocks)
    && Distinct(blocks)
    && forall b | b in blocks :: b !in base
  }

  lemma WithOneMore(live: Live, blocks: seq<nat>, b: nat)
    ensures WithBlocks(live, blocks + [b]) == WithBlocks(live, blocks)[b := 1]
  {
    assert (blocks + [b])[..|blocks|] == blocks;
  }

  lemma {:induction false} WithBlocksKeys(live: Live, blocks: seq<nat>)
    ensures WithBlocks(live, blocks).Keys == live.Keys + set b | b in blocks
    decreases |blocks|
  {
    if blocks != [] {
      WithBlocksKeys(live, blocks[..|blocks| - 1]);
      assert blocks == blocks[..|blocks| - 1] + [blocks[|blocks| - 1]];
    }
  }

  lemma AddedOneMore(base: Live, live: Live, blocks: seq<nat>, b: nat)
    requires Added(base, live, blocks) && b !in live
    ensures Added(base, live[b := 1], blocks + [b])
  {
    WithOneMore(base, blocks, b);
    WithBlocksKeys(base, blocks);
  }

  /** Removing what was added gives back the original runs. */
  lemma {:induction false} WithoutAdded(base: Live, live: Live, blocks: seq<nat>)
    requires Added(base, live, blocks)
    ensures WithoutBlocks(live, blocks) == base
    decreases |blocks|
  {
    if blocks != [] {
      var init, b := blocks[..|blocks| - 1], blocks[|blocks| - 1];
      assert blocks == init + [b];
      WithoutAdded(base, WithBlocks(base, init), init);
      assert live == WithBlocks(base, init)[b := 1];
    }
  }

  /** Releasing the blocks of a list one after another. */
  lemma ReleaseNext(live: Live, blocks: seq<nat>, j: nat)
    requires Distinct(blocks) && j < |blocks| && blocks[j] in live
    ensures blocks[j] in WithoutBlocks(live, blocks[..j])
    ensures WithoutBlocks(live, blocks[..j]) - {blocks[j]} == WithoutBlocks(live, blocks[..j + 1])
  {
    assert blocks[..j + 1] == blocks[..j] + [blocks[j]];
  }

  lemma ReleaseFirst(live: Live, blocks: seq<nat>)
    requires Distinct(blocks) && blocks != [] && blocks[0] in live
    ensures blocks[0] in WithoutBlocks(live, blocks[1..])
    ensures WithoutBlocks(live, blocks[1..]) - {blocks[0]} == WithoutBlocks(live, blocks)
  {
    assert blocks == [blocks[0]] + blocks[1..];
  }

  lemma WithoutNone(live: Live, blocks: seq<nat>)
    requires blocks != []
    ensures WithoutBlocks(live, blocks[1..1]) == live
  {
  }
}
