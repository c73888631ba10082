/** Building and editing page tables in heap memory
    (src/memory/paging/paging.c). */
module Paging {
  import opened Machine
  import opened HeapOps
  import opened KernelHeap
  import opened PageTables
  import opened IdentityMap

  const TABLE_BYTES := 4096
  const CHUNK_BYTES := 4

  ghost function Mem(k: Kheap): Memory
    reads k.heap, k.words
  {
    Memory(k.heap.saddr, k.heap.live, k.words[..])
  }

  /** A zeroed page of its own, as paging_new_4gb allocates for the directory, each
      table and the chunk. */
  method NewPage(k: Kheap, size: U32) returns (ptr: U32)
    requires k.Valid() && k.heap.FreeBlocks() >= 1 && 1 <= size <= PAGE_SIZE
    modifies k.heap, k.heap.entries, k.words
    ensures k.Valid() && FreshPage(old(Mem(k)), Mem(k), ptr)
    ensures k.heap.FreeBlocks() == old(k.heap.FreeBlocks()) - 1
  {
    ghost var m := Mem(k);
    ptr := AllocBlock(k, size);
    PageIsFresh(m, Mem(k), ptr);
  }

  /** `page[j] = value`. */
  method StoreWord(k: Kheap, page: U32, j: nat, value: U32)
    requires k.Valid() && IsPage(Mem(k), page) && j < ENTRIES
    modifies k.words
    ensures k.Valid() && ChangesOnly(old(Mem(k)), Mem(k), page)
    ensures Mem(k) == old(Mem(k)).(words := old(Mem(k)).words[WordIndex(old(Mem(k)), page, j) := value])
  {
    k.words[BlockOf(k.heap.saddr, page) * WORDS_PER_BLOCK + j] := value;
  }

  /** The inner loop of paging_new_4gb: `(offset + b * 4096) | flags`, computed
      in unsigned arithmetic from a signed offset that wraps. */
  method FillTable(k: Kheap, table: U32, offset: int, flags: Byte, ghost i: nat)
    requires k.Valid() && IsPage(Mem(k), table)
    requires i < ENTRIES && IsInt32(offset) && ToU32(offset) == i * TABLE_SPAN
    modifies k.words
    ensures k.Valid() && ChangesOnly(old(Mem(k)), Mem(k), table)
    ensures MapsToSelf(Mem(k), table, i, flags)
  {
    var first := BlockOf(k.heap.saddr, table) * WORDS_PER_BLOCK;
    var b := 0;
    while b < ENTRIES
      invariant 0 <= b <= ENTRIES
      invariant forall x | 0 <= x < k.words.Length ::
        k.words[x] ==
        if first <= x < first + b then (i * ENTRIES + (x - first)) * PAGE_SIZE + flags else old(k.words[x])
    {
      OffsetDoesNotDrift(offset, i, b);
      PageEntry(i * ENTRIES + b, flags);
      k.words[first + b] := BitOr(ToU32(offset + b * PAGE_SIZE), flags);
      b := b + 1;
    }
  }

  /** One round of the outer loop: a new table, filled and entered. */
  method AddTable(k: Kheap, dir: U32, offset: int, flags: Byte, i: nat, ghost tables: seq<U32>,
                  ghost start: Memory, ghost blocks: seq<nat>)
    returns (entry: U32)
    requires k.Valid() && k.heap.FreeBlocks() >= 1
    requires |tables| == i < ENTRIES && Built(Mem(k), dir, tables, flags)
    requires start.saddr == k.heap.saddr && Progress(start, Mem(k), blocks) && BlockOf(k.heap.saddr, dir) in blocks
    requires IsInt32(offset) && ToU32(offset) == i * TABLE_SPAN
    modifies k.heap, k.heap.entries, k.words
    ensures k.Valid() && k.heap.saddr <= entry
    ensures Built(Mem(k), dir, tables + [entry], flags)
    ensures Progress(start, Mem(k), blocks + [BlockOf(k.heap.saddr, entry)])
    ensures k.heap.FreeBlocks() == old(k.heap.FreeBlocks()) - 1
  {
    hide Built, Progress;
    ghost var m0 := Mem(k);
    entry := NewTable(k, offset, flags, i);
    ghost var m1 := Mem(k);
    TableEntered(start, m0, m1, dir, tables, flags, blocks, entry);
    StoreWord(k, dir, i, BitOr(BitOr(entry, flags), IS_WRITABLE));
  }

  /** A fresh table that maps the i-th 4 MiB of addresses to themselves. */
  method NewTable(k: Kheap, offset: int, flags: Byte, ghost i: nat) returns (entry: U32)
    requires k.Valid() && k.heap.FreeBlocks() >= 1
    requires i < ENTRIES && IsInt32(offset) && ToU32(offset) == i * TABLE_SPAN
    modifies k.heap, k.heap.entries, k.words
    ensures k.Valid() && FreshPage(old(Mem(k)), Mem(k), entry)
    ensures MapsToSelf(Mem(k), entry, i, flags)
    ensures k.heap.FreeBlocks() == old(k.heap.FreeBlocks()) - 1
  {
    ghost var m0 := Mem(k);
    entry := NewPage(k, TABLE_BYTES);
    ghost var m1 := Mem(k);
    FillTable(k, entry, offset, flags, i);
    FreshThenFilled(m0, m1, Mem(k), entry);
  }

  /** The head of paging_new_4gb: an empty directory. */
  method NewDirectory(k: Kheap, flags: Byte) returns (dir: U32)
    requires k.Valid() && k.heap.FreeBlocks() >= 1
    modifies k.heap, k.heap.entries, k.words
    ensures k.Valid() && k.heap.saddr <= dir && dir == AddrOf(k.heap.saddr, BlockOf(k.heap.saddr, dir))
    ensures Built(Mem(k), dir, [], flags)
    ensures Progress(old(Mem(k)), Mem(k), [BlockOf(k.heap.saddr, dir)])
    ensures k.heap.FreeBlocks() == old(k.heap.FreeBlocks()) - 1
  {
    hide Built, Progress;
    ghost var start := Mem(k);
    dir := NewPage(k, TABLE_BYTES);
    FirstPage(start, Mem(k), dir, flags);
  }

  /** paging_new_4gb. The source does not check kzalloc, so the caller must have
      the 1026 blocks; each becomes a page of its own. */
  method PagingNew4gb(k: Kheap, flags: Byte) returns (chunk: U32, ghost dir: U32, ghost blocks: seq<nat>)
    requires k.Valid() && k.heap.FreeBlocks() >= 1026
    modifies k.heap, k.heap.entries, k.words
    ensures k.Valid()
    ensures |blocks| == 1026 && Progress(old(Mem(k)), Mem(k), blocks)
    ensures k.heap.FreeBlocks() == old(k.heap.FreeBlocks()) - 1026
    ensures dir == AddrOf(k.heap.saddr, blocks[0]) && chunk == AddrOf(k.heap.saddr, blocks[1025])
    ensures IsPage(Mem(k), chunk) && Word(Mem(k), chunk, 0) == dir
    ensures IsIdentity(Mem(k), dir, flags)
    ensures forall i: nat | i < ENTRIES ::
      Word(Mem(k), dir, i) % PAGE_SIZE == if flags / 2 % 2 == 1 then flags as int else flags + 2
  {
    hide Built, Progress, IsIdentity;
    ghost var start := Mem(k);
    var offset := 0;
    var directory := NewDirectory(k, flags);
    dir := directory;
    ghost var tables: seq<U32> := [];
    blocks := [BlockOf(k.heap.saddr, dir)];
    var i := 0;
    while i < ENTRIES
      invariant 0 <= i <= ENTRIES && |tables| == i
      invariant |blocks| == i + 1 && blocks[0] == BlockOf(k.heap.saddr, dir)
      invariant k.Valid()
      invariant IsInt32(offset) && ToU32(offset) == ToU32(i * TABLE_SPAN)
      invariant Built(Mem(k), dir, tables, flags)
      invariant Progress(start, Mem(k), blocks)
      invariant k.heap.FreeBlocks() == old(k.heap.FreeBlocks()) - 1 - i
    {
      var entry := AddTable(k, directory, offset, flags, i, tables, start, blocks);
      OffsetStep(offset, i);
      offset := ToInt32(ToU32(offset) + TABLE_SPAN);
      tables := tables + [entry];
      blocks := blocks + [BlockOf(k.heap.saddr, entry)];
      i := i + 1;
    }
    chunk := FinishChunk(k, directory, flags, tables, start, blocks);
    blocks := blocks + [BlockOf(k.heap.saddr, chunk)];
    DirectoryFlags(Mem(k), dir, flags);
  }

  lemma DirectoryFlags(m: Memory, dir: U32, flags: Byte)
    requires IsIdentity(m, dir, flags)
    ensures IsPage(m, dir)
    ensures forall i: nat | i < ENTRIES ::
      Word(m, dir, i) % PAGE_SIZE == if flags / 2 % 2 == 1 then flags as int else flags + 2
  {
    hide Word, BitOr;
    WritableBit(flags);
  }

  /** The signed offset wraps, but its unsigned value stays exact modulo 2^32. */
  lemma OffsetStep(offset: int, i: nat)
    requires IsInt32(offset) && ToU32(offset) == ToU32(i * TABLE_SPAN)
    ensures ToU32(ToInt32(ToU32(offset) + TABLE_SPAN)) == ToU32((i + 1) * TABLE_SPAN)
  {
    ToU32Congruent(i * TABLE_SPAN, TABLE_SPAN);
    SignedRoundTrip(ToU32(offset) + TABLE_SPAN);
  }

  /** The tail of paging_new_4gb: allocate the chunk that holds the directory. */
  method FinishChunk(k: Kheap, dir: U32, flags: Byte, ghost tables: seq<U32>, ghost m0: Memory, ghost blocks: seq<nat>)
    returns (chunk: U32)
    requires k.Valid() && k.heap.FreeBlocks() >= 1
    requires |tables| == ENTRIES && Built(Mem(k), dir, tables, flags)
    requires m0.saddr == k.heap.saddr && Progress(m0, Mem(k), blocks)
    modifies k.heap, k.heap.entries, k.words
    ensures k.Valid() && IsPage(Mem(k), chunk) && Word(Mem(k), chunk, 0) == dir
    ensures Progress(m0, Mem(k), blocks + [BlockOf(k.heap.saddr, chunk)])
    ensures k.heap.FreeBlocks() == old(k.heap.FreeBlocks()) - 1
    ensures IsIdentity(Mem(k), dir, flags)
  {
    hide Built, Progress, IsIdentity;
    ghost var m1 := Mem(k);
    chunk := NewPage(k, CHUNK_BYTES);
    ghost var m2 := Mem(k);
    ProgressStep(m0, m1, m2, blocks, chunk);
    StoreWord(k, chunk, 0, dir);
    ProgressStore(m0, m2, Mem(k), blocks + [BlockOf(k.heap.saddr, chunk)], chunk);
    FreshThenFilled(m1, m2, Mem(k), chunk);
    BuiltIsStable(m1, Mem(k), dir, tables, flags);
    BuiltIsIdentity(Mem(k), dir, tables, flags);
  }

  /** paging_get_index. */
  method GetIndex(va: U32) returns (status: int, directoryIndex: nat, tableIndex: nat)
    ensures status == if va % PAGE_SIZE == 0 then 0 else -EINVARG
    ensures directoryIndex < ENTRIES && tableIndex < ENTRIES
    ensures status == 0 ==> (directoryIndex * ENTRIES + tableIndex) * PAGE_SIZE == va
  {
    if va % PAGE_SIZE != 0 {
      return -EINVARG, 0, 0;
    }
    return 0, va / TABLE_SPAN, va % TABLE_SPAN / PAGE_SIZE;
  }

  /** paging_set: an unaligned address changes nothing; an aligned one changes
      the flat map at its page, and not the directory. */
  method PagingSet(k: Kheap, dir: U32, va: U32, pa: U32) returns (status: int)
    requires k.Valid() && IsDirectory(Mem(k), dir)
    modifies k.words
    ensures k.Valid() && IsDirectory(Mem(k), dir)
    ensures status == if va % PAGE_SIZE == 0 then 0 else -EINVARG
    ensures status != 0 ==> Mem(k) == old(Mem(k))
    ensures status == 0 ==> Mem(k) == Stored(old(Mem(k)), dir, va / PAGE_SIZE, pa)
    ensures Flat(Mem(k), dir) == AfterSet(old(Flat(Mem(k), dir)), PageSet(va, pa))
    ensures forall i: nat | i < ENTRIES :: Word(Mem(k), dir, i) == old(Word(Mem(k), dir, i))
  {
    var directoryIndex, tableIndex;
    status, directoryIndex, tableIndex := GetIndex(va);
    if status < 0 {
      return;
    }
    ghost var m, page := Mem(k), va / PAGE_SIZE;
    assert directoryIndex == page / ENTRIES && tableIndex == page % ENTRIES;
    var entry := k.words[BlockOf(k.heap.saddr, dir) * WORDS_PER_BLOCK + directoryIndex];
    var table := FrameOf(entry);
    assert table == TableOf(m, dir, directoryIndex);
    StoreWord(k, table, tableIndex, pa);
    StoreKeepsDirectory(m, dir, page, pa);
    StoreUpdatesFlatMap(m, dir, page, pa);
  }

  /** Any sequence of paging_set calls. */
  method SetAll(k: Kheap, dir: U32, sets: seq<PageSet>)
    requires k.Valid() && IsDirectory(Mem(k), dir)
    modifies k.words
    ensures k.Valid() && IsDirectory(Mem(k), dir)
    ensures Flat(Mem(k), dir) == AfterSets(old(Flat(Mem(k), dir)), sets)
    ensures forall i: nat | i < ENTRIES :: Word(Mem(k), dir, i) == old(Word(Mem(k), dir, i))
  {
    hide Flat, Word;
    ghost var flat := Flat(Mem(k), dir);
    var n := 0;
    while n < |sets|
      invariant 0 <= n <= |sets|
      invariant k.Valid() && IsDirectory(Mem(k), dir)
      invariant Flat(Mem(k), dir) == AfterSets(flat, sets[..n])
      invariant forall i: nat | i < ENTRIES :: Word(Mem(k), dir, i) == old(Word(Mem(k), dir, i))
    {
      var status := PagingSet(k, dir, sets[n].va, sets[n].pa);
      assert sets[..n + 1][..n] == sets[..n];
      n := n + 1;
    }
    assert sets[..n] == sets;
  }

  /** Any client of the paging interface: build an address space, then make any
      sequence of paging_set calls. Every address then translates to the frame
      last set for its page, or to itself if none was; nothing translates if the
      tables were not built present. */
  method BuildAndRemap(k: Kheap, flags: Byte, sets: seq<PageSet>) returns (dir: U32)
    requires k.Valid() && k.heap.FreeBlocks() >= 1026
    modifies k.heap, k.heap.entries, k.words
    ensures k.Valid() && IsDirectory(Mem(k), dir)
    ensures forall va: U32 :: Walk(Mem(k), dir, va) == if Present(flags) then Expected(sets, va) else None
  {
    hide Progress, Walk, Expected, AfterSets, Word;
    var chunk, gdir, blocks := PagingNew4gb(k, flags);
    FirstWord(k, chunk);
    dir := k.words[BlockOf(k.heap.saddr, chunk) * WORDS_PER_BLOCK];
    ghost var m, flat := Mem(k), Flat(Mem(k), dir);
    SetAll(k, dir, sets);
    forall va: U32 ensures Walk(Mem(k), dir, va) == if Present(flags) then Expected(sets, va) else None {
      SplitAddress(va);
      RemappedWalk(m, Mem(k), dir, flags, sets, va);
    }
  }

  lemma FirstWord(k: Kheap, page: U32)
    requires k.Valid() && IsPage(Mem(k), page)
    ensures BlockOf(k.heap.saddr, page) * WORDS_PER_BLOCK < k.words.Length
    ensures Word(Mem(k), page, 0) == k.words[BlockOf(k.heap.saddr, page) * WORDS_PER_BLOCK]
  {
  }
}
