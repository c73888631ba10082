/** The identity map paging_new_4gb builds, as facts about memory snapshots
    (src/memory/paging/paging.c). */
module IdentityMap {
  import opened Machine
  import opened HeapRuns
  import opened HeapOps
  import opened KernelHeap
  import opened PageTables

  /** The first |tables| entries of the directory point to finished tables that
      map their pages to themselves. */
  ghost predicate Built(m: Memory, dir: U32, tables: seq<U32>, flags: Byte)
    requires |tables| <= ENTRIES
  {
    && IsPage(m, dir)
    && (forall i: nat | i < |tables| :: IsPage(m, tables[i]) && tables[i] != dir)
    && (forall i: nat, j: nat | i < j < |tables| :: tables[i] != tables[j])
    && (forall i: nat | i < |tables| :: Word(m, dir, i) == tables[i] + BitOr(flags, IS_WRITABLE))
    && (forall i: nat | i < |tables| :: MapsToSelf(m, tables[i], i, flags))
  }

  /** Table number i maps page i*1024+b to frame (i*1024+b)*4096. */
  ghost predicate MapsToSelf(m: Memory, table: U32, i: nat, flags: Byte)
    requires IsPage(m, table)
  {
    forall b: nat | b < ENTRIES :: Word(m, table, b) == (i * ENTRIES + b) * PAGE_SIZE + flags
  }

  /** Every page of the identity map carries the given flags. */
  ghost predicate IsIdentity(m: Memory, dir: U32, flags: Byte) {
    && IsDirectory(m, dir)
    && (forall i: nat | i < ENTRIES :: Word(m, dir, i) % PAGE_SIZE == BitOr(flags, IS_WRITABLE))
    && (forall page: nat | page < PAGES :: Flat(m, dir)[page] == BitOr(page * PAGE_SIZE, flags))
  }

  /** Every word of a run that was live is unchanged. */
  ghost predicate KeepsLiveWords(m: Memory, m': Memory) {
    && m'.saddr == m.saddr && |m'.words| == |m.words|
    && (forall s: nat, b: int | Covers(m.live, s, b) :: Covers(m'.live, s, b))
    && (forall x | 0 <= x < |m.words| && Holds(m.live, x / WORDS_PER_BLOCK) :: m'.words[x] == m.words[x])
  }

  /** ptr is a newly allocated page; no word of a live run changed. */
  ghost predicate FreshPage(m: Memory, m': Memory, ptr: U32) {
    && KeepsLiveWords(m, m') && IsPage(m', ptr)
    && !Holds(m.live, BlockOf(m.saddr, ptr))
    && m'.live == m.live[BlockOf(m.saddr, ptr) := 1]
  }

  /** Only words of this page may have changed. */
  ghost predicate ChangesOnly(m: Memory, m': Memory, ptr: U32)
    requires IsPage(m, ptr)
  {
    && m'.saddr == m.saddr && |m'.words| == |m.words| && m'.live == m.live
    && forall x | 0 <= x < |m.words| && x / WORDS_PER_BLOCK != BlockOf(m.saddr, ptr) :: m'.words[x] == m.words[x]
  }

  /** The same page holds the same word in both snapshots. */
  lemma PageWordKept(m: Memory, m': Memory, p: U32, j: nat)
    requires KeepsLiveWords(m, m') && IsPage(m, p) && j < ENTRIES
    ensures IsPage(m', p) && Word(m', p, j) == Word(m, p, j)
  {
    var b := BlockOf(m.saddr, p);
    assert Covers(m'.live, b, b);
    assert WordIndex(m, p, j) / WORDS_PER_BLOCK == b;
    assert Holds(m.live, b);
  }

  lemma BuiltIsStable(m: Memory, m': Memory, dir: U32, tables: seq<U32>, flags: Byte)
    requires |tables| <= ENTRIES && Built(m, dir, tables, flags)
    requires KeepsLiveWords(m, m')
    ensures Built(m', dir, tables, flags)
  {
    forall p: U32, j: nat | IsPage(m, p) && j < ENTRIES ensures IsPage(m', p) && Word(m', p, j) == Word(m, p, j) {
      PageWordKept(m, m', p, j);
    }
    PageWordKept(m, m', dir, 0);
    forall i: nat | i < |tables| ensures IsPage(m', tables[i]) && MapsToSelf(m', tables[i], i, flags) {
      PageWordKept(m, m', tables[i], 0);
      assert MapsToSelf(m, tables[i], i, flags);
    }
  }

  /** A fresh page can be filled without disturbing anything live before it. */
  lemma FreshThenFilled(m0: Memory, m1: Memory, m2: Memory, ptr: U32)
    requires FreshPage(m0, m1, ptr) && ChangesOnly(m1, m2, ptr)
    ensures FreshPage(m0, m2, ptr)
  {
    forall x | 0 <= x < |m0.words| && Holds(m0.live, x / WORDS_PER_BLOCK) ensures m2.words[x] == m0.words[x] {
    }
  }

  lemma FreshIsDistinct(m: Memory, m': Memory, ptr: U32, p: U32)
    requires FreshPage(m, m', ptr) && IsPage(m, p)
    ensures ptr != p
  {
    assert Covers(m.live, BlockOf(m.saddr, p), BlockOf(m.saddr, p));
  }

  /** Storing a finished table's address extends the built part by one. */
  lemma BuiltGrows(m: Memory, dir: U32, tables: seq<U32>, flags: Byte, table: U32)
    requires |tables| < ENTRIES && Built(m, dir, tables, flags)
    requires IsPage(m, table) && table != dir && table !in tables
    requires MapsToSelf(m, table, |tables|, flags)
    requires table + BitOr(flags, IS_WRITABLE) < U32_LIMIT
    ensures Built(m.(words := m.words[WordIndex(m, dir, |tables|) := table + BitOr(flags, IS_WRITABLE)]),
                  dir, tables + [table], flags)
  {
    var m' := m.(words := m.words[WordIndex(m, dir, |tables|) := table + BitOr(flags, IS_WRITABLE)]);
    var tables' := tables + [table];
    forall p: U32, j: nat | IsPage(m, p) && j < ENTRIES
      ensures IsPage(m', p)
      ensures Word(m', p, j) == if p == dir && j == |tables| then table + BitOr(flags, IS_WRITABLE) else Word(m, p, j)
    {
      WordsApart(m, p, j, dir, |tables|);
    }
    forall i: nat | i < |tables'| ensures IsPage(m', tables'[i]) && MapsToSelf(m', tables'[i], i, flags) {
      assert IsPage(m, tables'[i]) && MapsToSelf(m, tables'[i], i, flags);
    }
  }

  /** Masking recovers every table, so the finished structure is a directory
      that implements the identity map. */
  lemma BuiltIsIdentity(m: Memory, dir: U32, tables: seq<U32>, flags: Byte)
    requires |tables| == ENTRIES && Built(m, dir, tables, flags)
    requires m.saddr % PAGE_SIZE == 0
    ensures IsIdentity(m, dir, flags)
  {
    forall i: nat | i < ENTRIES
      ensures TableOf(m, dir, i) == tables[i] && Word(m, dir, i) % PAGE_SIZE == BitOr(flags, IS_WRITABLE)
    {
      MaskRecoversTable(m, dir, tables, flags, i);
    }
    assert IsDirectory(m, dir);
    forall page: nat | page < PAGES ensures Flat(m, dir)[page] == BitOr(page * PAGE_SIZE, flags) {
      IdentityEntry(m, dir, tables, flags, page);
    }
  }

  /** A directory entry carries the flags and the writable bit, whether or not it is
      among them. */
  lemma WritableBit(flags: Byte)
    ensures BitOr(flags, IS_WRITABLE) == if flags / 2 % 2 == 1 then flags else flags + 2
  {
    OrHalves(flags, 2);
    OrHalves(flags / 2, 1);
    OrZero(flags / 2 / 2);
  }

  lemma OrHalves(a: nat, b: nat)
    ensures BitOr(a, b) == 2 * BitOr(a / 2, b / 2) + if a % 2 == 1 || b % 2 == 1 then 1 else 0
  {
  }

  lemma MaskRecoversTable(m: Memory, dir: U32, tables: seq<U32>, flags: Byte, i: nat)
    requires |tables| == ENTRIES && Built(m, dir, tables, flags)
    requires m.saddr % PAGE_SIZE == 0 && i < ENTRIES
    ensures TableOf(m, dir, i) == tables[i] && Word(m, dir, i) % PAGE_SIZE == BitOr(flags, IS_WRITABLE)
  {
    hide BitOr;
    OrFlags(0, flags, IS_WRITABLE);
    assert IsPage(m, tables[i]);
    PageAddressAligned(m, tables[i]);
    LowPart(tables[i], BitOr(flags, IS_WRITABLE));
    assert Word(m, dir, i) == tables[i] + BitOr(flags, IS_WRITABLE);
  }

  lemma LowPart(frame: nat, low: nat)
    requires frame % PAGE_SIZE == 0 && low < PAGE_SIZE
    ensures (frame + low) % PAGE_SIZE == low && frame + low - low == frame
  {
  }

  lemma PageAddressAligned(m: Memory, p: U32)
    requires IsPage(m, p) && m.saddr % PAGE_SIZE == 0
    ensures p % PAGE_SIZE == 0
  {
  }

  lemma IdentityEntry(m: Memory, dir: U32, tables: seq<U32>, flags: Byte, page: nat)
    requires |tables| == ENTRIES && Built(m, dir, tables, flags) && IsDirectory(m, dir)
    requires page < PAGES && TableOf(m, dir, page / ENTRIES) == tables[page / ENTRIES]
    ensures Pte(m, dir, page) == BitOr(page * PAGE_SIZE, flags)
  {
    var i, b := page / ENTRIES, page % ENTRIES;
    assert MapsToSelf(m, tables[i], i, flags);
    assert Word(m, tables[i], b) == (i * ENTRIES + b) * PAGE_SIZE + flags;
    JoinPageNumber(page);
    PageEntry(page, flags);
  }

  lemma JoinPageNumber(page: nat)
    ensures page / ENTRIES * ENTRIES + page % ENTRIES == page
  {
  }

  /** An identity map translates every address to itself, as far as the present
      flag allows. */
  lemma IdentityWalk(m: Memory, dir: U32, flags: Byte, va: U32)
    requires IsIdentity(m, dir, flags)
    ensures Walk(m, dir, va) == if Present(flags) then Some(va) else None
  {
    SplitAddress(va);
    var page := va / PAGE_SIZE;
    PageEntry(page, flags);
    assert Flat(m, dir)[page] == BitOr(page * PAGE_SIZE, flags);
    if Present(flags) {
      IdentityTablesPresent(m, dir, flags);
      WalkReadsFlatMap(m, dir, va);
    } else {
      assert Pte(m, dir, page) == BitOr(page * PAGE_SIZE, flags);
    }
  }

  lemma PageEntry(page: nat, flags: Byte)
    requires page < PAGES
    ensures BitOr(page * PAGE_SIZE, flags) == page * PAGE_SIZE + flags < U32_LIMIT
    ensures Present(BitOr(page * PAGE_SIZE, flags)) == Present(flags)
    ensures FrameOf(BitOr(page * PAGE_SIZE, flags)) == page * PAGE_SIZE
  {
    hide BitOr;
    var addr := page * PAGE_SIZE;
    OrFlags(addr, 0, flags);
    OrZero(flags);
    LowPart(addr, flags);
    LowBit(addr + flags);
  }

  lemma IdentityTablesPresent(m: Memory, dir: U32, flags: Byte)
    requires IsIdentity(m, dir, flags)
    ensures Present(flags) ==> AllTablesPresent(m, dir)
  {
    assert Present(BitOr(flags, IS_WRITABLE)) == Present(flags);
    forall i: nat | i < ENTRIES ensures Present(Word(m, dir, i)) == Present(flags) {
      LowBit(Word(m, dir, i));
    }
  }

  lemma LowBit(w: nat)
    ensures w % 2 == w % PAGE_SIZE % 2
  {
  }

  lemma OffsetDoesNotDrift(offset: int, i: nat, b: nat)
    requires i < ENTRIES && b < ENTRIES && IsInt32(offset) && ToU32(offset) == i * TABLE_SPAN
    ensures ToU32(offset + b * PAGE_SIZE) == (i * ENTRIES + b) * PAGE_SIZE
  {
  }

  lemma DirectoryEntry(table: U32, flags: Byte)
    requires table % PAGE_SIZE == 0
    ensures BitOr(table, flags) < U32_LIMIT
    ensures BitOr(BitOr(table, flags), IS_WRITABLE) == table + BitOr(flags, IS_WRITABLE) < U32_LIMIT
  {
    hide BitOr;
    OrFlags(table, 0, flags);
    OrZero(flags);
    OrFlags(table, flags, IS_WRITABLE);
  }

  /** Once the address of a fresh, filled table is stored in the directory, the
      built part and the list of pages have each grown by one. */
  lemma TableEntered(start: Memory, m0: Memory, m1: Memory, dir: U32, tables: seq<U32>, flags: Byte,
                     blocks: seq<nat>, entry: U32)
    requires start.saddr % PAGE_SIZE == 0
    requires |tables| < ENTRIES && Built(m0, dir, tables, flags)
    requires start.saddr == m0.saddr && Progress(start, m0, blocks) && BlockOf(m0.saddr, dir) in blocks
    requires FreshPage(m0, m1, entry) && MapsToSelf(m1, entry, |tables|, flags)
    ensures IsPage(m1, dir)
    ensures BitOr(entry, flags) < U32_LIMIT
    ensures BitOr(BitOr(entry, flags), IS_WRITABLE) == entry + BitOr(flags, IS_WRITABLE) < U32_LIMIT
    ensures var m2 := m1.(words := m1.words[WordIndex(m1, dir, |tables|) := entry + BitOr(flags, IS_WRITABLE)]);
      Built(m2, dir, tables + [entry], flags) && Progress(start, m2, blocks + [BlockOf(start.saddr, entry)])
  {
    TableReady(m0, m1, dir, tables, flags, entry);
    var m2 := m1.(words := m1.words[WordIndex(m1, dir, |tables|) := entry + BitOr(flags, IS_WRITABLE)]);
    ProgressStep(start, m0, m1, blocks, entry);
    ProgressStore(start, m1, m2, blocks + [BlockOf(start.saddr, entry)], dir);
  }

  lemma TableReady(m0: Memory, m1: Memory, dir: U32, tables: seq<U32>, flags: Byte, entry: U32)
    requires m0.saddr % PAGE_SIZE == 0
    requires |tables| < ENTRIES && Built(m0, dir, tables, flags)
    requires FreshPage(m0, m1, entry) && MapsToSelf(m1, entry, |tables|, flags)
    ensures IsPage(m1, dir)
    ensures BitOr(entry, flags) < U32_LIMIT
    ensures BitOr(BitOr(entry, flags), IS_WRITABLE) == entry + BitOr(flags, IS_WRITABLE) < U32_LIMIT
    ensures Built(m1.(words := m1.words[WordIndex(m1, dir, |tables|) := entry + BitOr(flags, IS_WRITABLE)]),
                  dir, tables + [entry], flags)
  {
    BuiltIsStable(m0, m1, dir, tables, flags);
    PageAddressAligned(m1, entry);
    DirectoryEntry(entry, flags);
    FreshIsDistinct(m0, m1, entry, dir);
    forall i: nat | i < |tables| ensures tables[i] != entry {
      FreshIsDistinct(m0, m1, entry, tables[i]);
    }
    BuiltGrows(m1, dir, tables, flags, entry);
  }

  lemma PageIsFresh(m: Memory, m': Memory, ptr: U32)
    requires m'.saddr == m.saddr <= ptr && |m'.words| == |m.words|
    requires ptr == AddrOf(m.saddr, BlockOf(m.saddr, ptr))
    requires (BlockOf(m.saddr, ptr) + 1) * WORDS_PER_BLOCK <= |m.words|
    requires BlockOf(m.saddr, ptr) !in m.live && !Holds(m.live, BlockOf(m.saddr, ptr))
    requires m'.live == m.live[BlockOf(m.saddr, ptr) := 1]
    requires forall x | 0 <= x < |m.words| && x / WORDS_PER_BLOCK != BlockOf(m.saddr, ptr) :: m'.words[x] == m.words[x]
    ensures FreshPage(m, m', ptr)
  {
    var b := BlockOf(m.saddr, ptr);
    assert Covers(m'.live, b, b);
    forall s: nat, i: int | Covers(m.live, s, i) ensures Covers(m'.live, s, i) {
    }
  }

  /** What the construction has done so far: one live run per page, each on a
      block that was free before, and no live word disturbed. */
  ghost predicate Progress(m0: Memory, m: Memory, blocks: seq<nat>) {
    && m.live == WithBlocks(m0.live, blocks)
    && KeepsLiveWords(m0, m)
    && (forall i | 0 <= i < |blocks| :: !Holds(m0.live, blocks[i]) && Covers(m.live, blocks[i], blocks[i]))
    && (forall i, j | 0 <= i < j < |blocks| :: blocks[i] != blocks[j])
  }

  lemma ProgressStep(m0: Memory, m: Memory, m': Memory, blocks: seq<nat>, ptr: U32)
    requires Progress(m0, m, blocks) && FreshPage(m, m', ptr)
    ensures Progress(m0, m', blocks + [BlockOf(m.saddr, ptr)])
  {
    var b := BlockOf(m.saddr, ptr);
    WithOneMore(m0.live, blocks, b);
    forall i | 0 <= i < |blocks| ensures blocks[i] != b && Covers(m'.live, blocks[i], blocks[i]) {
      assert Covers(m.live, blocks[i], blocks[i]);
    }
    HoldsGrows(m0, m, b);
    forall x | 0 <= x < |m0.words| && Holds(m0.live, x / WORDS_PER_BLOCK) ensures m'.words[x] == m0.words[x] {
      HoldsGrows(m0, m, x / WORDS_PER_BLOCK);
    }
  }

  /** After its first page the construction has an empty directory. */
  lemma FirstPage(m0: Memory, m: Memory, dir: U32, flags: Byte)
    requires FreshPage(m0, m, dir)
    ensures Built(m, dir, [], flags)
    ensures Progress(m0, m, [BlockOf(m0.saddr, dir)])
  {
    assert Progress(m0, m0, []);
    ProgressStep(m0, m0, m, [], dir);
    assert [] + [BlockOf(m0.saddr, dir)] == [BlockOf(m0.saddr, dir)];
  }

  lemma HoldsGrows(m: Memory, m': Memory, b: int)
    requires KeepsLiveWords(m, m')
    ensures Holds(m.live, b) ==> Holds(m'.live, b)
  {
    if Holds(m.live, b) {
      var s: nat :| Covers(m.live, s, b);
      assert Covers(m'.live, s, b);
    }
  }

  /** Writing to a page the construction allocated is still progress. */
  lemma ProgressStore(m0: Memory, m: Memory, m': Memory, blocks: seq<nat>, page: U32)
    requires Progress(m0, m, blocks) && IsPage(m, page) && ChangesOnly(m, m', page)
    requires BlockOf(m.saddr, page) in blocks
    ensures Progress(m0, m', blocks)
  {
  }

  /** Where an address translates to after a run of updates of the identity map:
      the frame last set for its page, or itself. */
  function Expected(sets: seq<PageSet>, va: U32): Option<nat> {
    match LastIndex(sets, va / PAGE_SIZE)
    case None => Some(va)
    case Some(i) => if Present(sets[i].pa) then Some(FrameOf(sets[i].pa) + va % PAGE_SIZE) else None
  }

  /** The identity map m after a run of updates that left memory m'. */
  lemma RemappedWalk(m: Memory, m': Memory, dir: U32, flags: Byte, sets: seq<PageSet>, va: U32)
    requires IsIdentity(m, dir, flags) && IsDirectory(m', dir)
    requires Flat(m', dir) == AfterSets(Flat(m, dir), sets)
    requires forall i: nat | i < ENTRIES :: Word(m', dir, i) == Word(m, dir, i)
    ensures Walk(m', dir, va) == if Present(flags) then Expected(sets, va) else None
  {
    SplitAddress(va);
    TablesPresentIff(m, m', dir, flags, va / TABLE_SPAN);
    if Present(flags) {
      forall i: nat | i < ENTRIES ensures Present(Word(m', dir, i)) {
        TablesPresentIff(m, m', dir, flags, i);
      }
      RemappedFrame(m, m', dir, flags, sets, va);
    }
  }

  lemma TablesPresentIff(m: Memory, m': Memory, dir: U32, flags: Byte, i: nat)
    requires IsIdentity(m, dir, flags) && IsPage(m', dir) && i < ENTRIES
    requires forall i: nat | i < ENTRIES :: Word(m', dir, i) == Word(m, dir, i)
    ensures Present(Word(m', dir, i)) <==> Present(flags)
  {
    hide Word;
    assert Present(BitOr(flags, IS_WRITABLE)) == Present(flags);
    LowBit(Word(m, dir, i));
  }

  lemma RemappedFrame(m: Memory, m': Memory, dir: U32, flags: Byte, sets: seq<PageSet>, va: U32)
    requires IsIdentity(m, dir, flags) && IsDirectory(m', dir) && AllTablesPresent(m', dir) && Present(flags)
    requires Flat(m', dir) == AfterSets(Flat(m, dir), sets)
    ensures Walk(m', dir, va) == Expected(sets, va)
  {
    hide IsDirectory, AllTablesPresent, Flat, Walk, AfterSets, LastSet;
    var page := va / PAGE_SIZE;
    WalkReadsFlatMap(m', dir, va);
    LastSetWins(Flat(m, dir), sets, page);
    PageEntry(page, flags);
  }
}
