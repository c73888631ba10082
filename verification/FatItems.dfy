/** Items the driver keeps in kernel heap blocks: a cloned file record or a
    loaded directory (src/fs/fat/fat16.c). */
module FatItems {
  import opened Machine
  import opened HeapRuns
  import opened HeapOps
  import opened KernelHeap
  import opened FatVolume
  import opened FatReader
  import opened FatNames
  import opened FatDirectory

  const ITEM_BYTES := 8
  const DIRECTORY_BYTES := 16

  /** A loaded directory; itemAddr is null when it has no records. */
  datatype Directory = Directory(itemAddr: U32, data: seq<Byte>, total: nat)

  /** struct fat_item with the addresses of its heap objects. */
  datatype FatItem =
    | FileItem(addr: U32, recordAddr: U32, record: Record)
    | DirItem(addr: U32, directoryAddr: U32, directory: Directory)

  /** What an item means, without its addresses. */
  datatype Node =
    | FileNode(record: Record)
    | DirNode(data: seq<Byte>, total: nat)

  function View(item: FatItem): Node {
    match item
    case FileItem(_, _, record) => FileNode(record)
    case DirItem(_, _, directory) => DirNode(directory.data, directory.total)
  }

  // ------------------------------------------------ the item on disk

  /** What opening the record needs of the volume. */
  ghost predicate RecordOk(v: Volume, r: Record)
    requires VolumeOk(v)
  {
    IsSubdirectory(r) ==> 0 <= FirstCluster(r) < FAT_ENTRIES && DirectoryOk(v, FirstCluster(r))
  }

  /** The node a record stands for; a subdirectory without a blank record has
      none. */
  ghost function OpenRecord(v: Volume, r: Record): Option<Node>
    requires VolumeOk(v) && RecordOk(v, r)
  {
    if !IsSubdirectory(r) then Some(FileNode(r))
    else
      match SubdirTotal(v, FirstCluster(r))
      case None => None
      case Some(n) =>
        RecordsReadable(v, FirstCluster(r), n);
        Some(DirNode(ChainBytes(v, FirstCluster(r), 0, RECORD_SIZE * n), n))
  }

  function DataBlocks(total: nat): nat {
    if RECORD_SIZE * total < U32_LIMIT then BlocksFor(RECORD_SIZE * total) else 0
  }

  /** Heap blocks that opening the record takes. */
  ghost function Need(v: Volume, r: Record): nat
    requires VolumeOk(v) && RecordOk(v, r)
  {
    if !IsSubdirectory(r) then 2
    else
      match SubdirTotal(v, FirstCluster(r))
      case None => 2
      case Some(n) => 2 + DataBlocks(n)
  }

  // ------------------------------------------------ the item on a given heap

  /** The live runs after loading n records, or None where the heap runs out. */
  ghost function PlaceRecords(live: Live, total: nat, n: nat): Option<Live> {
    if n == 0 then Some(live) else Alloc(live, total, RECORD_SIZE * n)
  }

  /** The live runs after loading the directory of a record, or None where the
      source gives up: there is none on disk, or the heap runs out. */
  ghost function PlaceDirectory(v: Volume, live: Live, total: nat, r: Record): Option<Live>
    requires VolumeOk(v) && RecordOk(v, r)
  {
    if OpenRecord(v, r).None? || !IsSubdirectory(r) then None
    else
      match Alloc(live, total, DIRECTORY_BYTES)
      case None => None
      case Some(live') => PlaceRecords(live', total, OpenRecord(v, r).value.total)
  }

  /** The live runs after opening a record, or None where that fails. */
  ghost function Place(v: Volume, live: Live, total: nat, r: Record): (placed: Option<Live>)
    ensures placed.Some? ==> VolumeOk(v) && RecordOk(v, r) && OpenRecord(v, r).Some?
  {
    if !(VolumeOk(v) && RecordOk(v, r)) then None
    else
      match Alloc(live, total, ITEM_BYTES)
      case None => None
      case Some(live') =>
        if IsSubdirectory(r) then PlaceDirectory(v, live', total, r) else Alloc(live', total, RECORD_SIZE)
  }

  /** Opening a record that stands for a node succeeds whenever its blocks fit in
      the longest free stretch, and takes no more than them from it. */
  lemma PlaceRoom(v: Volume, live: Live, total: nat, r: Record)
    requires VolumeOk(v) && RecordOk(v, r) && RunsOk(live, total)
    ensures Place(v, live, total, r).Some? ==>
      var live' := Place(v, live, total, r).value;
      && RunsOk(live', total) && live.Keys <= live'.Keys
      && RoomOf(live', total) + Need(v, r) >= RoomOf(live, total)
    ensures OpenRecord(v, r).Some? && RoomOf(live, total) >= Need(v, r) ==> Place(v, live, total, r).Some?
  {
    hide RunsOk, RoomOf, VolumeOk, DirectoryOk, ChainReadable, ChainBytes, IsSubdirectory, Alloc;
    OneBlock(ITEM_BYTES);
    OneBlock(RECORD_SIZE);
    OneBlock(DIRECTORY_BYTES);
    DirectoryRecord(v, r);
    AllocRoom(live, total, ITEM_BYTES);
    if Alloc(live, total, ITEM_BYTES).Some? {
      var l1 := Alloc(live, total, ITEM_BYTES).value;
      AllocRoom(l1, total, RECORD_SIZE);
      AllocRoom(l1, total, DIRECTORY_BYTES);
      if IsSubdirectory(r) && OpenRecord(v, r).Some? && Alloc(l1, total, DIRECTORY_BYTES).Some? {
        RecordsRoom(v, Alloc(l1, total, DIRECTORY_BYTES).value, total, FirstCluster(r));
      }
    }
  }

  lemma RecordsRoom(v: Volume, live: Live, total: nat, start: U16)
    requires VolumeOk(v) && DirectoryOk(v, start) && SubdirTotal(v, start).Some? && RunsOk(live, total)
    ensures var n := SubdirTotal(v, start).value;
      && (PlaceRecords(live, total, n).Some? ==>
            var live' := PlaceRecords(live, total, n).value;
            && RunsOk(live', total) && live.Keys <= live'.Keys
            && RoomOf(live', total) + DataBlocks(n) >= RoomOf(live, total))
      && (RoomOf(live, total) >= DataBlocks(n) ==> PlaceRecords(live, total, n).Some?)
  {
    hide RunsOk, RoomOf, VolumeOk, DirectoryOk, Alloc, BlocksFor;
    var n := SubdirTotal(v, start).value;
    assert IsInt32(RECORD_SIZE * n);
    if n > 0 {
      AllocRoom(live, total, RECORD_SIZE * n);
      BlocksForIsCeiling(RECORD_SIZE * n);
    }
  }

  // ------------------------------------------------ ownership

  ghost predicate DirectoryPtrsOk(k: Kheap, addr: U32, directory: Directory) {
    && IsBlockPtr(k, addr)
    && (directory.itemAddr == 0 <==> directory.total == 0)
    && |directory.data| == RECORD_SIZE * directory.total
    && (directory.itemAddr != 0 ==>
          IsBlockPtr(k, directory.itemAddr) && BlockOf(k.heap.saddr, directory.itemAddr) != BlockOf(k.heap.saddr, addr))
  }

  ghost function DirectoryRuns(saddr: U32, addr: U32, directory: Directory): Live {
    if directory.itemAddr == 0 then map[BlockOf(saddr, addr) := 1]
    else map[BlockOf(saddr, addr) := 1, BlockOf(saddr, directory.itemAddr) := DataBlocks(directory.total)]
  }

  ghost predicate ItemOk(k: Kheap, item: FatItem) {
    && IsBlockPtr(k, item.addr)
    && match item
       case FileItem(addr, recordAddr, _) =>
         IsBlockPtr(k, recordAddr) && BlockOf(k.heap.saddr, addr) != BlockOf(k.heap.saddr, recordAddr)
       case DirItem(addr, directoryAddr, directory) =>
         && DirectoryPtrsOk(k, directoryAddr, directory)
         && BlockOf(k.heap.saddr, addr) !in DirectoryRuns(k.heap.saddr, directoryAddr, directory)
  }

  /** The runs the item occupies: its own block and those of its content. */
  ghost function Runs(saddr: U32, item: FatItem): Live {
    match item
    case FileItem(addr, recordAddr, _) => map[BlockOf(saddr, addr) := 1, BlockOf(saddr, recordAddr) := 1]
    case DirItem(addr, directoryAddr, directory) =>
      DirectoryRuns(saddr, directoryAddr, directory) + map[BlockOf(saddr, addr) := 1]
  }

  /** live is base plus exactly these runs. */
  ghost predicate Extends(base: Live, live: Live, runs: Live) {
    runs.Keys !! base.Keys && live == base + runs
  }

  ghost predicate ItemOwned(k: Kheap, base: Live, item: FatItem)
    reads k.heap
  {
    ItemOk(k, item) && Extends(base, k.heap.live, Runs(k.heap.saddr, item))
  }

  // ------------------------------------------------ release

  /** fat16_free_directory. */
  method FreeDirectory(k: Kheap, addr: U32, directory: Directory)
    requires k.Valid() && DirectoryPtrsOk(k, addr, directory)
    requires DirectoryRuns(k.heap.saddr, addr, directory).Keys <= k.heap.live.Keys
    modifies k.heap, k.heap.entries
    ensures k.Valid() && k.Room() >= old(k.Room())
    ensures k.heap.live == old(k.heap.live) - DirectoryRuns(k.heap.saddr, addr, directory).Keys
  {
    hide IsBlockPtr, BlockOf, RunsOk, Encode;
    if directory.itemAddr != 0 {
      FreeBlock(k, directory.itemAddr);
    }
    FreeBlock(k, addr);
  }

  /** fat16_fat_item_free: everything the item owns is released. */
  method FreeItem(k: Kheap, item: FatItem)
    requires k.Valid() && ItemOk(k, item)
    requires Runs(k.heap.saddr, item).Keys <= k.heap.live.Keys
    modifies k.heap, k.heap.entries
    ensures k.Valid() && k.Room() >= old(k.Room())
    ensures k.heap.live == old(k.heap.live) - Runs(k.heap.saddr, item).Keys
  {
    hide IsBlockPtr, BlockOf, RunsOk, Encode, DirectoryPtrsOk;
    match item {
      case DirItem(_, directoryAddr, directory) =>
        FreeDirectory(k, directoryAddr, directory);
      case FileItem(_, recordAddr, _) =>
        FreeBlock(k, recordAddr);
    }
    FreeBlock(k, item.addr);
  }

  // ------------------------------------------------ loading

  /** fat16_load_fat_directory: the directory on disk, unless there is none or the
      heap runs out. */
  method LoadDirectory(k: Kheap, d: FatDisk, r: Record) returns (addr: U32, directory: Directory)
    requires k.Valid() && d.Valid() && RecordOk(d.vol, r)
    modifies k.heap, k.heap.entries, k.words, d.clusterStream, d.fatStream
    ensures k.Valid()
    ensures addr != 0 ==>
      && DirectoryPtrsOk(k, addr, directory)
      && Extends(old(k.heap.live), k.heap.live, DirectoryRuns(k.heap.saddr, addr, directory))
      && OpenRecord(d.vol, r) == Some(DirNode(directory.data, directory.total))
    ensures match PlaceDirectory(d.vol, old(k.heap.live), k.heap.entries.Length, r)
            case Some(live) => addr != 0 && k.heap.live == live
            case None => addr == 0 && k.heap.live == old(k.heap.live)
  {
    hide IsBlockPtr, BlockOf, RunsOk, Encode, ChainReadable, ChainBytes, VolumeOk, DirectoryOk,
      SubdirTotal, OpenRecord, Need, IsSubdirectory, FirstCluster, Extends, RecordOk, Alloc;
    ghost var base, saddr := k.heap.live, k.heap.saddr;
    directory := Directory(0, [], 0);
    DirectoryRecord(d.vol, r);
    if !IsSubdirectory(r) {
      return 0, directory;
    }
    OneBlock(DIRECTORY_BYTES);
    addr := TryAlloc(k, DIRECTORY_BYTES);
    if addr == 0 {
      return 0, directory;
    }
    ExtendOnce(base, BlockOf(saddr, addr), 1);
    var cluster := FirstCluster(r);
    var total := CountRecords(d, cluster);
    if total < 0 {
      FreeDirectory(k, addr, directory);
      return 0, directory;
    }
    var ok, itemAddr, data := LoadRecords(k, d, cluster, total);
    if !ok {
      FreeDirectory(k, addr, directory);
      return 0, directory;
    }
    ExtendTwice(base, BlockOf(saddr, addr), BlockOf(saddr, itemAddr), DataBlocks(total));
    directory := Directory(itemAddr, data, total);
  }

  lemma ExtendOnce(base: Live, b: nat, n: nat)
    requires b !in base
    ensures Extends(base, base[b := n], map[b := n])
    ensures base[b := n] - {b} == base
  {
  }

  lemma ExtendTwice(base: Live, b: nat, c: nat, n: nat)
    ensures b !in base && c !in base[b := 1] ==> Extends(base, base[b := 1][c := n], map[b := 1, c := n])
  {
    if b !in base && c !in base[b := 1] {
      assert base[b := 1][c := n] == base + map[b := 1, c := n];
    }
  }

  lemma DirectoryRecord(v: Volume, r: Record)
    requires VolumeOk(v) && RecordOk(v, r)
    ensures IsSubdirectory(r) ==>
      && 0 <= FirstCluster(r) < FAT_ENTRIES && DirectoryOk(v, FirstCluster(r))
      && (SubdirTotal(v, FirstCluster(r)).None? ==> OpenRecord(v, r).None? && Need(v, r) == 2)
      && (SubdirTotal(v, FirstCluster(r)).Some? ==>
            var n := SubdirTotal(v, FirstCluster(r)).value;
            && Need(v, r) == 2 + DataBlocks(n)
            && ChainReadable(v, FirstCluster(r), 0, RECORD_SIZE * n)
            && OpenRecord(v, r) == Some(DirNode(ChainBytes(v, FirstCluster(r), 0, RECORD_SIZE * n), n)))
  {
    if IsSubdirectory(r) && SubdirTotal(v, FirstCluster(r)).Some? {
      RecordsReadable(v, FirstCluster(r), SubdirTotal(v, FirstCluster(r)).value);
    }
  }

  /** The bulk load of a directory with a known number of records. */
  method LoadRecords(k: Kheap, d: FatDisk, cluster: U16, total: nat) returns (ok: bool, itemAddr: U32, data: seq<Byte>)
    requires k.Valid() && d.Valid() && DirectoryOk(d.vol, cluster) && SubdirTotal(d.vol, cluster) == Some(total)
    modifies k.heap, k.heap.entries, k.words, d.clusterStream, d.fatStream
    ensures k.Valid()
    ensures match PlaceRecords(old(k.heap.live), k.heap.entries.Length, total)
            case Some(live) => ok && k.heap.live == live
            case None => !ok && k.heap.live == old(k.heap.live)
    ensures ok ==> (itemAddr == 0 <==> total == 0)
    ensures ok && total == 0 ==> k.heap.live == old(k.heap.live)
    ensures ok && total > 0 ==>
      && IsBlockPtr(k, itemAddr) && BlockOf(k.heap.saddr, itemAddr) !in old(k.heap.live)
      && k.heap.live == old(k.heap.live)[BlockOf(k.heap.saddr, itemAddr) := DataBlocks(total)]
    ensures ok ==> |data| == RECORD_SIZE * total
    ensures ok ==>
      && ChainReadable(d.vol, cluster, 0, RECORD_SIZE * total)
      && data == ChainBytes(d.vol, cluster, 0, RECORD_SIZE * total)
  {
    hide IsBlockPtr, BlockOf, RunsOk, Encode, ChainReadable, ChainBytes, VolumeOk, DirectoryOk;
    DirectoryFits(d.vol, cluster);
    RecordsReadable(d.vol, cluster, total);
    var size := total * RECORD_SIZE;
    if size == 0 {
      NoBytes(d.vol, cluster);
      return true, 0, [];
    }
    itemAddr := TryAlloc(k, size);
    if itemAddr == 0 {
      return false, 0, [];
    }
    var items := new Byte[size];
    var res := d.ReadInternal(cluster, 0, size, items, 0);
    data := items[..];
    ok := res == 0;
  }

  lemma NoBytes(v: Volume, cluster: U16)
    requires VolumeOk(v)
    ensures ChainReadable(v, cluster, 0, 0) && ChainBytes(v, cluster, 0, 0) == []
  {
  }
}
