/** What a two-level page table in memory means: the hardware's walk, the flat
    map it implements, and the effect of one store into it (Intel SDM Volume
    3A, section 4.3, "32-Bit Paging"). */
module PageTables {
  import opened Machine
  import opened HeapRuns
  import opened HeapOps
  import opened KernelHeap

  const ENTRIES := 1024
  const PAGE_SIZE := 4096
  const PAGES := 1048576
  const TABLE_SPAN := 4194304
  const IS_WRITABLE := 2

  /** `entry & 0xfffff000`: the address part of a table entry. */
  function FrameOf(entry: U32): (frame: U32)
    ensures frame == entry - entry % PAGE_SIZE
  {
    MaskRoundsDown(entry);
    BitAnd(entry, 0xffff_f000)
  }

  lemma Powers()
    ensures Pow2(12) == PAGE_SIZE && Pow2(20) == 0x10_0000 && Pow2(32) == U32_LIMIT
  {
    assert Pow2(4) == 16;
    assert Pow2(8) == 256;
    assert Pow2(12) == PAGE_SIZE;
    assert Pow2(16) == 65536;
    assert Pow2(20) == 0x10_0000;
    assert Pow2(24) == 0x100_0000;
    assert Pow2(28) == 0x1000_0000;
  }

  lemma MaskRoundsDown(entry: U32)
    ensures BitAnd(entry, 0xffff_f000) == entry - entry % PAGE_SIZE
  {
    hide BitAnd;
    Powers();
    assert HighMask(20, 4) == 0xff_fff0;
    assert HighMask(20, 8) == 0xfff_ff00;
    assert HighMask(20, 12) == 0xffff_f000;
    AndHighMask(entry, 20, 12);
  }

  /** Flags or-ed into a page-aligned address stay in the low twelve bits. */
  lemma OrFlags(addr: U32, low: U32, flags: U32)
    requires addr % PAGE_SIZE == 0 && low < PAGE_SIZE && flags < PAGE_SIZE
    ensures BitOr(low, flags) < PAGE_SIZE
    ensures BitOr(addr + low, flags) == addr + BitOr(low, flags) < U32_LIMIT
  {
    hide BitOr;
    Powers();
    OrLowBits(addr, low, flags, 12);
    PageEndInRange(addr);
  }

  lemma PageEndInRange(addr: U32)
    requires addr % PAGE_SIZE == 0
    ensures addr + PAGE_SIZE <= U32_LIMIT
  {
  }

  predicate Present(entry: nat) {
    entry % 2 == 1
  }

  /** A snapshot of kernel memory: the live runs and the words they hold. */
  datatype Memory = Memory(saddr: U32, live: Live, words: seq<U32>)

  /** ptr is the address of a live block. */
  ghost predicate IsPage(m: Memory, ptr: U32) {
    && m.saddr <= ptr && ptr == AddrOf(m.saddr, BlockOf(m.saddr, ptr))
    && Covers(m.live, BlockOf(m.saddr, ptr), BlockOf(m.saddr, ptr))
    && (BlockOf(m.saddr, ptr) + 1) * WORDS_PER_BLOCK <= |m.words|
  }

  /** The j-th word of the page at ptr. */
  ghost function WordIndex(m: Memory, ptr: U32, j: nat): nat
    requires IsPage(m, ptr) && j < ENTRIES
  {
    BlockOf(m.saddr, ptr) * WORDS_PER_BLOCK + j
  }

  ghost function Word(m: Memory, ptr: U32, j: nat): U32
    requires IsPage(m, ptr) && j < ENTRIES
  {
    m.words[WordIndex(m, ptr, j)]
  }

  ghost function TableOf(m: Memory, dir: U32, i: nat): U32
    requires IsPage(m, dir) && i < ENTRIES
  {
    FrameOf(Word(m, dir, i))
  }

  /** dir is a page directory: every entry names a live page of its own. */
  ghost predicate IsDirectory(m: Memory, dir: U32) {
    && IsPage(m, dir)
    && (forall i: nat | i < ENTRIES :: IsPage(m, TableOf(m, dir, i)) && TableOf(m, dir, i) != dir)
    && (forall i: nat, j: nat | i < j < ENTRIES :: TableOf(m, dir, i) != TableOf(m, dir, j))
  }

  /** The page-table entry in use for a page number. */
  ghost function Pte(m: Memory, dir: U32, page: nat): U32
    requires IsDirectory(m, dir) && page < PAGES
  {
    Word(m, TableOf(m, dir, page / ENTRIES), page % ENTRIES)
  }

  /** The directory as one flat map from page numbers to entries. */
  ghost function Flat(m: Memory, dir: U32): (flat: seq<U32>)
    requires IsDirectory(m, dir)
    ensures |flat| == PAGES
  {
    seq(PAGES, page requires 0 <= page < PAGES => Pte(m, dir, page))
  }

  /** Address translation as the hardware does it: directory index, table
      index, both entries present, frame plus page offset. */
  ghost function Walk(m: Memory, dir: U32, va: U32): Option<nat>
    requires IsDirectory(m, dir)
  {
    var pde := Word(m, dir, va / TABLE_SPAN);
    assert IsPage(m, TableOf(m, dir, va / TABLE_SPAN));
    var pte := Word(m, FrameOf(pde), va % TABLE_SPAN / PAGE_SIZE);
    if Present(pde) && Present(pte) then Some(FrameOf(pte) + va % PAGE_SIZE) else None
  }

  ghost predicate AllTablesPresent(m: Memory, dir: U32)
    requires IsPage(m, dir)
  {
    forall i: nat | i < ENTRIES :: Present(Word(m, dir, i))
  }

  /** The two-level walk reads the flat map at the page number of the address. */
  lemma WalkReadsFlatMap(m: Memory, dir: U32, va: U32)
    requires IsDirectory(m, dir) && AllTablesPresent(m, dir)
    ensures var pte := Flat(m, dir)[va / PAGE_SIZE];
      Walk(m, dir, va) == if Present(pte) then Some(FrameOf(pte) + va % PAGE_SIZE) else None
  {
    SplitAddress(va);
    assert Present(Word(m, dir, va / TABLE_SPAN));
  }

  lemma SplitAddress(va: U32)
    ensures va / PAGE_SIZE < PAGES
    ensures va / PAGE_SIZE / ENTRIES == va / TABLE_SPAN < ENTRIES
    ensures va / PAGE_SIZE % ENTRIES == va % TABLE_SPAN / PAGE_SIZE < ENTRIES
  {
  }

  /** Words of different pages, and different words of one page, are apart. */
  lemma WordsApart(m: Memory, p: U32, i: nat, q: U32, j: nat)
    requires IsPage(m, p) && IsPage(m, q) && i < ENTRIES && j < ENTRIES
    ensures WordIndex(m, p, i) == WordIndex(m, q, j) <==> p == q && i == j
  {
  }

  /** Memory after the entry of a page is overwritten in its table. */
  ghost function Stored(m: Memory, dir: U32, page: nat, pa: U32): Memory
    requires IsDirectory(m, dir) && page < PAGES
  {
    m.(words := m.words[WordIndex(m, TableOf(m, dir, page / ENTRIES), page % ENTRIES) := pa])
  }

  lemma StoreKeepsDirectory(m: Memory, dir: U32, page: nat, pa: U32)
    requires IsDirectory(m, dir) && page < PAGES
    ensures var m' := Stored(m, dir, page, pa);
      && IsDirectory(m', dir)
      && forall i: nat | i < ENTRIES :: Word(m', dir, i) == Word(m, dir, i)
  {
    var table := TableOf(m, dir, page / ENTRIES);
    var m' := Stored(m, dir, page, pa);
    forall i: nat | i < ENTRIES ensures Word(m', dir, i) == Word(m, dir, i) {
      WordsApart(m, dir, i, table, page % ENTRIES);
    }
    forall i: nat | i < ENTRIES ensures TableOf(m', dir, i) == TableOf(m, dir, i) {
      assert Word(m', dir, i) == Word(m, dir, i);
    }
    assert forall i: nat | i < ENTRIES :: IsPage(m', TableOf(m, dir, i));
  }

  /** Storing into a table entry leaves a directory that implements the flat
      map updated at exactly that page. */
  lemma StoreUpdatesFlatMap(m: Memory, dir: U32, page: nat, pa: U32)
    requires IsDirectory(m, dir) && page < PAGES
    ensures var m' := Stored(m, dir, page, pa);
      && IsDirectory(m', dir)
      && Flat(m', dir) == Flat(m, dir)[page := pa]
  {
    StoreKeepsDirectory(m, dir, page, pa);
    forall q: nat | q < PAGES
      ensures Pte(Stored(m, dir, page, pa), dir, q) == if q == page then pa else Pte(m, dir, q)
    {
      PteAfterStore(m, dir, page, pa, q);
    }
  }

  lemma PteAfterStore(m: Memory, dir: U32, page: nat, pa: U32, q: nat)
    requires IsDirectory(m, dir) && page < PAGES && q < PAGES
    requires IsDirectory(Stored(m, dir, page, pa), dir)
    ensures Pte(Stored(m, dir, page, pa), dir, q) == if q == page then pa else Pte(m, dir, q)
  {
    StoreKeepsDirectory(m, dir, page, pa);
    assert Word(Stored(m, dir, page, pa), dir, q / ENTRIES) == Word(m, dir, q / ENTRIES);
    if q != page {
      OtherEntriesKeep(m, dir, page, q);
    }
  }

  lemma OtherEntriesKeep(m: Memory, dir: U32, p: nat, q: nat)
    requires IsDirectory(m, dir) && p < PAGES && q < PAGES && p != q
    ensures WordIndex(m, TableOf(m, dir, p / ENTRIES), p % ENTRIES)
         != WordIndex(m, TableOf(m, dir, q / ENTRIES), q % ENTRIES)
  {
    var i, j := p / ENTRIES, q / ENTRIES;
    WordsApart(m, TableOf(m, dir, i), p % ENTRIES, TableOf(m, dir, j), q % ENTRIES);
    if i < j {
      assert TableOf(m, dir, i) != TableOf(m, dir, j);
    } else if j < i {
      assert TableOf(m, dir, j) != TableOf(m, dir, i);
    }
  }

  // ------------------------------------------------------- runs of updates

  datatype PageSet = PageSet(va: U32, pa: U32)

  function AfterSet(flat: seq<U32>, s: PageSet): (r: seq<U32>)
    requires |flat| == PAGES
    ensures |r| == PAGES
  {
    if s.va % PAGE_SIZE == 0 then flat[s.va / PAGE_SIZE := s.pa] else flat
  }

  function AfterSets(flat: seq<U32>, sets: seq<PageSet>): (r: seq<U32>)
    requires |flat| == PAGES
    ensures |r| == PAGES
    decreases |sets|
  {
    if sets == [] then flat
    else AfterSet(AfterSets(flat, sets[..|sets| - 1]), sets[|sets| - 1])
  }

  /** The i-th call is the last one that set this page. */
  predicate LastSet(sets: seq<PageSet>, page: nat, i: nat) {
    && i < |sets| && sets[i].va == page * PAGE_SIZE
    && forall j | i < j < |sets| :: sets[j].va != page * PAGE_SIZE
  }

  function LastIndex(sets: seq<PageSet>, page: nat): (r: Option<nat>)
    ensures r.Some? ==> LastSet(sets, page, r.value)
    ensures r.None? <==> forall i | 0 <= i < |sets| :: sets[i].va != page * PAGE_SIZE
    decreases |sets|
  {
    if sets == [] then None
    else if sets[|sets| - 1].va == page * PAGE_SIZE then Some(|sets| - 1)
    else LastIndex(sets[..|sets| - 1], page)
  }

  /** After any run of updates a page holds the entry last set for it, or its
      original entry if no aligned call named it. */
  lemma {:induction false} LastSetWins(flat: seq<U32>, sets: seq<PageSet>, page: nat)
    requires |flat| == PAGES && page < PAGES
    ensures AfterSets(flat, sets)[page] ==
      match LastIndex(sets, page) case None => flat[page] case Some(i) => sets[i].pa
    decreases |sets|
  {
    if sets != [] {
      LastSetWins(flat, sets[..|sets| - 1], page);
      SamePage(sets[|sets| - 1].va, page);
    }
  }

  lemma SamePage(va: U32, page: nat)
    ensures va % PAGE_SIZE == 0 && va / PAGE_SIZE == page <==> va == page * PAGE_SIZE
  {
  }
}
