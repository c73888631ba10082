/** The kernel's heap interface (src/memory/heap/kheap.c): the block allocator
    together with the word-addressed memory its blocks stand for. */
module KernelHeap {
  import opened Machine
  import opened HeapRuns
  import opened HeapOps
  import opened BlockHeap

  const HEAP_SIZE_BYTES := 104857600
  const HEAP_START_ADDR := 0x0100_0000
  const WORDS_PER_BLOCK := 1024

  /** The word whose `bytes` lowest bytes are cleared (little-endian memset). */
  function ClearLowBytes(w: U32, bytes: nat): U32
    requires bytes < 4
  {
    if bytes == 0 then w
    else if bytes == 1 then w - w % 0x100
    else if bytes == 2 then w - w % 0x1_0000
    else w - w % 0x100_0000
  }

  /** The word with these four bytes, lowest first. */
  function WordOf(bytes: seq<Byte>): (w: U32)
    requires |bytes| == 4
  {
    (bytes[0] as int) + 0x100 * (bytes[1] as int) + 0x1_0000 * (bytes[2] as int) + 0x100_0000 * (bytes[3] as int)
  }

  /** Exactly the n lowest bytes become zero. */
  lemma ClearsLowBytes(bytes: seq<Byte>, n: nat)
    requires |bytes| == 4 && n < 4
    ensures ClearLowBytes(WordOf(bytes), n) == WordOf(seq(n, _ => 0) + bytes[n..])
  {
    var w := WordOf(bytes);
    var b0: int, b1: int, b2: int, b3: int := bytes[0], bytes[1], bytes[2], bytes[3];
    DivModUnique(w, 0x100, b1 + 0x100 * b2 + 0x1_0000 * b3, b0);
    DivModUnique(w, 0x1_0000, b2 + 0x100 * b3, b0 + 0x100 * b1);
    DivModUnique(w, 0x100_0000, b3, b0 + 0x100 * b1 + 0x1_0000 * b2);
  }

  class Kheap {
    const heap: Heap
    const words: array<U32>

    ghost predicate Valid()
      reads heap, heap.entries
    {
      heap.Valid() && words.Length == heap.entries.Length * WORDS_PER_BLOCK
    }

    /** The longest stretch of free blocks: what one allocation can still get. */
    ghost function Room(): nat
      reads heap.entries
    {
      LongestFree(heap.entries[..])
    }

    constructor (heap: Heap, words: array<U32>)
      requires heap.Valid() && words.Length == heap.entries.Length * WORDS_PER_BLOCK
      ensures this.heap == heap && this.words == words && Valid()
    {
      this.heap := heap;
      this.words := words;
    }

    /** ptr is a fresh run of n blocks, or null because no stretch was long
        enough (or no block was asked for). */
    twostate predicate Allocated(n: nat, ptr: U32)
      requires old(Valid()) && Valid()
      reads heap, heap.entries
    {
      && (ptr != 0 <==> 1 <= n <= old(Room()))
      && (ptr == 0 ==> heap.live == old(heap.live) && heap.entries[..] == old(heap.entries[..]))
      && (ptr != 0 ==>
            && heap.saddr <= ptr && ptr == AddrOf(heap.saddr, BlockOf(heap.saddr, ptr))
            && (forall i | BlockOf(heap.saddr, ptr) <= i < BlockOf(heap.saddr, ptr) + n :: !Holds(old(heap.live), i))
            && BlockOf(heap.saddr, ptr) !in old(heap.live) && BlockOf(heap.saddr, ptr) + n <= heap.entries.Length
            && heap.live == old(heap.live)[BlockOf(heap.saddr, ptr) := n]
            && heap.FreeBlocks() == old(heap.FreeBlocks()) - n
            && Room() >= old(Room()) - n)
      && (n == 1 && old(heap.FreeBlocks()) >= 1 ==> ptr != 0)
    }

    method Kmalloc(size: U32) returns (ptr: U32)
      requires Valid()
      modifies heap, heap.entries
      ensures Valid()
      ensures Allocated(if size == 0 then 0 else BlocksFor(size), ptr)
      ensures heap.live == After(old(heap.live), heap.entries.Length, heap.saddr, HeapOp.Malloc(size))
    {
      ghost var live, total, n := heap.live, heap.entries.Length, BlocksFor(size);
      ptr := heap.Malloc(size);
      if ptr != 0 {
        ghost var b := Fit(live, total, size).value;
        assert b == BlockOf(heap.saddr, ptr);
        EncodeAdd(live, total, b, n);
        CountAdd(live, total, b, n);
        assert FreeAt(Encode(live, total), b, n);
        forall i | b <= i < b + n ensures !Holds(live, i) {
          FreeIffUncovered(live, total, i);
        }
        RoomAfterFirstFit(live, total, n, LongestFree(Encode(live, total)), b);
      } else if n == 1 && size != 0 && CountFree(Encode(live, total)) >= 1 {
        FreeBlockExists(Encode(live, total));
      }
    }

    method Kzalloc(size: U32) returns (ptr: U32)
      requires Valid()
      modifies heap, heap.entries, words
      ensures Valid()
      ensures Allocated(if size == 0 then 0 else BlocksFor(size), ptr)
      ensures heap.live == After(old(heap.live), heap.entries.Length, heap.saddr, HeapOp.Malloc(size))
      ensures forall k | 0 <= k < words.Length ::
        words[k] ==
        if ptr == 0 then old(words[k])
        else if 0 <= k - BlockOf(heap.saddr, ptr) * WORDS_PER_BLOCK < size / 4 then 0
        else if k - BlockOf(heap.saddr, ptr) * WORDS_PER_BLOCK == size / 4 then ClearLowBytes(old(words[k]), size % 4)
        else old(words[k])
    {
      ptr := Kmalloc(size);
      if ptr == 0 {
        return;
      }
      BlocksForIsCeiling(size);
      ClearBytes(BlockOf(heap.saddr, ptr) * WORDS_PER_BLOCK, size);
    }

    /** memset(ptr, 0, size) on the words from `first` on. */
    method ClearBytes(first: nat, size: nat)
      requires first + (size + 3) / 4 <= words.Length
      modifies words
      ensures forall k | 0 <= k < words.Length ::
        words[k] ==
        if first <= k < first + size / 4 then 0
        else if k == first + size / 4 then ClearLowBytes(old(words[k]), size % 4)
        else old(words[k])
    {
      var i := 0;
      while i < size / 4
        invariant 0 <= i <= size / 4
        invariant forall k | 0 <= k < words.Length ::
          words[k] == if first <= k < first + i then 0 else old(words[k])
      {
        words[first + i] := 0;
        i := i + 1;
      }
      if size % 4 != 0 {
        words[first + i] := ClearLowBytes(words[first + i], size % 4);
      }
    }

    method Kfree(ptr: U32)
      requires Valid()
      modifies heap, heap.entries
      ensures Valid()
      ensures heap.live == AfterFree(old(heap.live), heap.saddr, ptr)
      ensures Room() >= old(Room())
    {
      ghost var live, total := heap.live, heap.entries.Length;
      heap.Free(ptr);
      if IsLivePtr(live, heap.saddr, ptr) {
        RoomAfterRemove(live, total, BlockOf(heap.saddr, ptr), LongestFree(Encode(live, total)));
      }
    }
  }

  /** The pointer is the address of a block of this heap. */
  ghost predicate IsBlockPtr(k: Kheap, ptr: U32) {
    k.heap.saddr <= ptr && ptr == AddrOf(k.heap.saddr, BlockOf(k.heap.saddr, ptr)) && ptr != 0
  }

  /** kzalloc as its callers see it: a new run, or null when no free stretch was
      long enough. */
  method TryAlloc(k: Kheap, size: U32) returns (ptr: U32)
    requires k.Valid() && size <= U32_LIMIT - BLOCK_SIZE
    modifies k.heap, k.heap.entries, k.words
    ensures k.Valid()
    ensures ptr != 0 <==> size != 0 && BlocksFor(size) <= old(k.Room())
    ensures Alloc(old(k.heap.live), k.heap.entries.Length, size) == if ptr == 0 then None else Some(k.heap.live)
    ensures ptr == 0 ==> k.heap.live == old(k.heap.live) && k.heap.FreeBlocks() == old(k.heap.FreeBlocks())
    ensures BlocksFor(size) == 1 && size > 0 && old(k.heap.FreeBlocks()) >= 1 ==> ptr != 0
    ensures ptr != 0 ==>
      && IsBlockPtr(k, ptr) && BlockOf(k.heap.saddr, ptr) !in old(k.heap.live)
      && k.heap.live == old(k.heap.live)[BlockOf(k.heap.saddr, ptr) := BlocksFor(size)]
      && k.Room() >= old(k.Room()) - BlocksFor(size)
      && k.heap.FreeBlocks() == old(k.heap.FreeBlocks()) - BlocksFor(size)
  {
    BlocksForIsCeiling(size);
    ptr := k.Kzalloc(size);
  }

  lemma OneBlock(size: U32)
    requires 1 <= size <= BLOCK_SIZE
    ensures BlocksFor(size) == 1
  {
    BlocksForIsCeiling(size);
  }

  /** Block b was free, and no word outside it has changed. */
  ghost predicate TakesOnly(live: Live, words: seq<U32>, words': seq<U32>, b: nat) {
    && !Holds(live, b) && |words'| == |words| && (b + 1) * WORDS_PER_BLOCK <= |words|
    && forall x | 0 <= x < |words| && x / WORDS_PER_BLOCK != b :: words'[x] == words[x]
  }

  /** A zeroed allocation of at most one block, where one is known to be free. */
  method AllocBlock(k: Kheap, size: U32) returns (ptr: U32)
    requires k.Valid() && k.heap.FreeBlocks() >= 1 && 1 <= size <= BLOCK_SIZE
    modifies k.heap, k.heap.entries, k.words
    ensures k.Valid() && IsBlockPtr(k, ptr)
    ensures BlockOf(k.heap.saddr, ptr) !in old(k.heap.live)
    ensures k.heap.live == old(k.heap.live)[BlockOf(k.heap.saddr, ptr) := 1]
    ensures Alloc(old(k.heap.live), k.heap.entries.Length, size) == Some(k.heap.live)
    ensures k.heap.FreeBlocks() == old(k.heap.FreeBlocks()) - 1 && k.Room() >= old(k.Room()) - 1
    ensures TakesOnly(old(k.heap.live), old(k.words[..]), k.words[..], BlockOf(k.heap.saddr, ptr))
  {
    OneBlock(size);
    ptr := k.Kzalloc(size);
    ghost var b := BlockOf(k.heap.saddr, ptr);
    forall x | 0 <= x < k.words.Length && x / WORDS_PER_BLOCK != b ensures k.words[x] == old(k.words[x]) {
      OutsideBlock(x, b, size);
    }
  }

  lemma OutsideBlock(x: nat, b: nat, size: nat)
    requires x / WORDS_PER_BLOCK != b && size <= BLOCK_SIZE
    ensures !(0 <= x - b * WORDS_PER_BLOCK < size / 4)
    ensures x - b * WORDS_PER_BLOCK == size / 4 ==> size % 4 == 0
  {
  }

  /** kfree of a pointer that is known to be live. */
  method FreeBlock(k: Kheap, ptr: U32)
    requires k.Valid() && IsBlockPtr(k, ptr) && BlockOf(k.heap.saddr, ptr) in k.heap.live
    modifies k.heap, k.heap.entries
    ensures k.Valid()
    ensures k.heap.live == old(k.heap.live) - {BlockOf(k.heap.saddr, ptr)}
    ensures k.Room() >= old(k.Room())
  {
    AddrRoundTrip(k.heap.saddr, BlockOf(k.heap.saddr, ptr));
    k.Kfree(ptr);
  }

  /** kheap_init: with the configured constants creating the heap cannot fail,
      so the panic loop is never entered. */
  method KheapInit() returns (k: Kheap)
    ensures fresh(k) && fresh(k.heap) && fresh(k.heap.entries) && fresh(k.words)
    ensures k.Valid() && k.heap.live == map[]
    ensures k.heap.saddr == HEAP_START_ADDR && k.heap.entries.Length == 25600
    ensures k.heap.FreeBlocks() == 25600 && k.Room() == 25600
  {
    var total := HEAP_SIZE_BYTES / BLOCK_SIZE;
    var entries := new bv8[total];
    var res, heap := Create(HEAP_START_ADDR, HEAP_START_ADDR + HEAP_SIZE_BYTES, entries);
    assert res == ALL_OK;
    var words := new U32[total * WORDS_PER_BLOCK];
    k := new Kheap(heap, words);
    EncodeEmpty(total);
    CountUniform(entries[..], true);
    assert FreeAt(entries[..], 0, total);
  }
}
