/** The block allocator of src/memory/heap/heap.c: a table with one byte per
    4096-byte block, changed in place by allocation and release. */
module BlockHeap {
  import opened Machine
  import opened HeapRuns
  import opened HeapOps

  class Heap {
    const saddr: U32
    const entries: array<bv8>
    ghost var live: Live

    ghost predicate Valid()
      reads this, entries
    {
      && saddr != 0 && saddr % BLOCK_SIZE == 0
      && AddrOf(saddr, entries.Length) < U32_LIMIT
      && RunsOk(live, entries.Length)
      && entries[..] == Encode(live, entries.Length)
    }

    ghost function FreeBlocks(): nat
      reads entries
    {
      CountFree(entries[..])
    }

    constructor (saddr: U32, entries: array<bv8>)
      requires saddr != 0 && saddr % BLOCK_SIZE == 0 && AddrOf(saddr, entries.Length) < U32_LIMIT
      requires forall i | 0 <= i < entries.Length :: entries[i] == FREE
      ensures this.saddr == saddr && this.entries == entries
      ensures Valid() && live == map[]
    {
      this.saddr := saddr;
      this.entries := entries;
      live := map[];
      EncodeEmpty(entries.Length);
    }

    /** First block of the lowest stretch of n free blocks, or -ENOMEM.
        A request for zero blocks always fails: the count has passed zero
        before it is first compared. */
    method GetStartBlock(n: U32) returns (block: int)
      ensures 0 <= block <==> n >= 1 && HasRoom(entries[..], n)
      ensures 0 <= block ==> IsFirstFit(entries[..], n, block)
      ensures block < 0 ==> block == -ENOMEM
    {
      var count := 0;
      var start := -1;
      var i := 0;
      while i < entries.Length
        invariant 0 <= i <= entries.Length
        invariant if start == -1 then count == 0 else 0 <= start < i && count == i - start
        invariant n >= 1 ==> count < n
        invariant forall k | 0 <= start <= k < i :: IsFree(entries[k])
        invariant forall j | 0 <= j < (if start == -1 then i else start) :: n >= 1 ==> !FreeAt(entries[..], j, n)
      {
        if !IsFree(entries[i]) {
          assert !IsFree(entries[..][i]);
          count := 0;
          start := -1;
        } else {
          if start == -1 {
            start := i;
          }
          count := count + 1;
          if count == n {
            break;
          }
        }
        i := i + 1;
      }
      if start == -1 {
        return -ENOMEM;
      }
      if count != n {
        return -ENOMEM;
      }
      assert FreeAt(entries[..], start, n);
      return start;
    }

    /** Mark the n blocks from start as one run. */
    method MarkBlocksTaken(start: nat, n: U32)
      requires n >= 1 && start + n <= entries.Length
      modifies entries
      ensures forall i | 0 <= i < entries.Length ::
        entries[i] == if start <= i < start + n then RunByte(i == start, i + 1 < start + n) else old(entries[i])
    {
      var i := start;
      while i < start + n
        invariant start <= i <= start + n
        invariant forall k | 0 <= k < entries.Length ::
          entries[k] == if start <= k < i then RunByte(false, k + 1 < start + n) else old(entries[k])
      {
        entries[i] := TAKEN;
        if i + 1 < start + n {
          entries[i] := entries[i] | HAS_NEXT;
        }
        i := i + 1;
      }
      entries[start] := entries[start] | IS_FIRST;
    }

    /** Reserve n contiguous blocks, or return the null pointer. */
    method MallocBlocks(n: U32) returns (ptr: U32)
      requires Valid()
      modifies this, entries
      ensures Valid()
      ensures ptr != 0 <==> n >= 1 && HasRoom(old(entries[..]), n)
      ensures ptr != 0 ==> saddr <= ptr && ptr == AddrOf(saddr, BlockOf(saddr, ptr))
      ensures ptr != 0 ==> IsFirstFit(old(entries[..]), n, BlockOf(saddr, ptr))
      ensures ptr != 0 ==> live == old(live)[BlockOf(saddr, ptr) := n]
      ensures ptr == 0 ==> live == old(live) && entries[..] == old(entries[..])
    {
      var start := GetStartBlock(n);
      if start < 0 {
        return 0;
      }
      ptr := saddr + start * BLOCK_SIZE;
      ghost var table := entries[..];
      EncodeAdd(live, entries.Length, start, n);
      MarkBlocksTaken(start, n);
      assert forall i | 0 <= i < entries.Length && !(start <= i < start + n) :: entries[i] == table[i];
      live := live[start := n];
      assert entries[..] == Encode(live, entries.Length);
      assert BlockOf(saddr, ptr) == start;
    }

    /** heap_malloc. */
    method Malloc(size: U32) returns (ptr: U32)
      requires Valid()
      modifies this, entries
      ensures Valid()
      ensures live == After(old(live), entries.Length, saddr, HeapOp.Malloc(size))
      ensures ptr != 0 <==> Fit(old(live), entries.Length, size).Some?
      ensures ptr != 0 ==> ptr == AddrOf(saddr, Fit(old(live), entries.Length, size).value)
      ensures ptr == 0 ==> entries[..] == old(entries[..])
    {
      if size == 0 {
        return 0;
      }
      ghost var fit := Fit(live, entries.Length, size);
      ptr := MallocBlocks(AlignUp(size) / BLOCK_SIZE);
      if ptr != 0 {
        assert fit.Some? && fit.value == BlockOf(saddr, ptr);
      }
    }

    /** heap_free: releases the run that starts at ptr and ignores every other
        pointer. */
    method Free(ptr: U32)
      requires Valid()
      modifies this, entries
      ensures Valid()
      ensures live == After(old(live), entries.Length, saddr, HeapOp.Free(ptr))
      ensures forall b: nat | b in old(live) && ptr == AddrOf(saddr, b) :: live == old(live) - {b}
      ensures (forall b: nat | b in old(live) :: ptr != AddrOf(saddr, b)) ==>
        live == old(live) && entries[..] == old(entries[..])
    {
      LivePtrIff(live, saddr, ptr);
      forall b: nat | b in live && ptr == AddrOf(saddr, b) ensures BlockOf(saddr, ptr) == b {
        AddrRoundTrip(saddr, b);
      }
      if ptr == 0 || ptr < saddr || ptr % BLOCK_SIZE != 0 {
        return;
      }
      var start := (ptr - saddr) / BLOCK_SIZE;
      if start >= entries.Length {
        return;
      }
      FirstIffLive(live, entries.Length, start);
      if entries[start] & IS_FIRST == 0 {
        return;
      }
      FreeRun(start);
    }

    /** The release loop of heap_free. */
    method FreeRun(start: nat)
      requires Valid() && start in live
      modifies this, entries
      ensures Valid()
      ensures live == old(live) - {start}
    {
      ghost var stop := start + live[start];
      RunEntries(start);
      ghost var table := entries[..];
      var idx := start;
      while idx < entries.Length
        modifies entries
        invariant start <= idx < stop
        invariant forall k | 0 <= k < entries.Length ::
          entries[k] == if start <= k < idx then FREE else table[k]
      {
        if entries[idx] & HAS_NEXT == 0 {
          entries[idx] := FREE;
          idx := idx + 1;
          break;
        }
        entries[idx] := FREE;
        idx := idx + 1;
      }
      EncodeRemove(live, entries.Length, start);
      live := live - {start};
      assert entries[..] == Encode(live, entries.Length);
    }

    /** Any client: a sequence of calls with arbitrary arguments. */
    method Perform(ops: seq<HeapOp>)
      requires Valid()
      modifies this, entries
      ensures Valid() && live == AfterAll(old(live), entries.Length, saddr, ops)
      ensures FreeBlocks() + LiveBlocks(live) == entries.Length
    {
      hide RunsOk, Encode, After;
      var n := 0;
      while n < |ops|
        invariant 0 <= n <= |ops| && Valid()
        invariant AfterAll(live, entries.Length, saddr, ops[n..]) == AfterAll(old(live), entries.Length, saddr, ops)
      {
        assert ops[n..][0] == ops[n] && ops[n..][1..] == ops[n + 1..];
        match ops[n] {
          case Malloc(size) => var ptr := Malloc(size);
          case Free(ptr) => Free(ptr);
        }
        n := n + 1;
      }
      BlocksConserved(live, entries.Length);
    }

    lemma RunEntries(start: nat)
      requires Valid() && start in live
      ensures forall i | start <= i < start + live[start] ::
        entries[i] == RunByte(i == start, i + 1 < start + live[start])
    {
      forall i | start <= i < start + live[start]
        ensures entries[i] == RunByte(i == start, i + 1 < start + live[start])
      {
        assert Covers(live, start, i);
        EntryOfRun(live, entries.Length, start, i);
        assert entries[..][i] == entries[i];
      }
    }
  }

  /** heap_create: check the arguments, then clear the table. The heap is
      returned only on success. */
  method Create(start: U32, end: U32, entries: array?<bv8>) returns (res: int, heap: Heap?)
    modifies entries
    ensures res == ALL_OK <==>
      start != 0 && entries != null && start % BLOCK_SIZE == 0 && end % BLOCK_SIZE == 0 &&
      start <= end && end == AddrOf(start, entries.Length)
    ensures res == -EIO <==>
      start != 0 && entries != null && start % BLOCK_SIZE == 0 && end % BLOCK_SIZE == 0 && end < start
    ensures res == ALL_OK || res == -EIO || res == -EINVARG
    ensures res == ALL_OK <==> heap != null
    ensures res == ALL_OK ==>
      fresh(heap) && heap.Valid() && heap.saddr == start && heap.entries == entries && heap.live == map[]
    ensures res != ALL_OK && entries != null ==> entries[..] == old(entries[..])
  {
    heap := null;
    if start == 0 || entries == null {
      return -EINVARG, null;
    }
    if start % BLOCK_SIZE != 0 || end % BLOCK_SIZE != 0 {
      return -EINVARG, null;
    }
    if end < start {
      return -EIO, null;
    }
    if (end - start) / BLOCK_SIZE != entries.Length {
      return -EINVARG, null;
    }
    var i := 0;
    while i < entries.Length
      invariant 0 <= i <= entries.Length
      invariant forall k | 0 <= k < i :: entries[k] == FREE
    {
      entries[i] := FREE;
      i := i + 1;
    }
    heap := new Heap(start, entries);
    return ALL_OK, heap;
  }
}
