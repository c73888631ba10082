/** Opening and closing files: every failed open, and every open followed by a
    close, leaves the heap table as it was (src/fs/fat/fat16.c). */
module FatOpen {
  import opened Machine
  import opened HeapRuns
  import opened HeapOps
  import opened KernelHeap
  import opened CStrings
  import opened PathParser
  import opened FatVolume
  import opened FatReader
  import opened FatItems
  import opened FatPaths
  import opened FatLookup

  const DESCRIPTOR_BYTES := 8
  const FILE_MODE_READ := 0

  /** struct fat_file_descriptor, at address addr. */
  class FileDescriptor {
    const addr: U32
    var item: Option<FatItem>
    var pos: U32

    constructor (addr: U32)
      ensures this.addr == addr && item == None && pos == 0
    {
      this.addr := addr;
      item := None;
      pos := 0;
    }
  }

  datatype OpenResult = Opened(desc: FileDescriptor) | Error(code: int) | OpenFault

  /** The descriptor and its item are exactly what was added to base. */
  ghost predicate DescriptorOwned(k: Kheap, base: Live, desc: FileDescriptor)
    reads k.heap, desc
  {
    && IsBlockPtr(k, desc.addr) && BlockOf(k.heap.saddr, desc.addr) !in base
    && desc.item.Some?
    && ItemOwned(k, base[BlockOf(k.heap.saddr, desc.addr) := 1], desc.item.value)
  }

  /** The walk that opening a path for reading makes, or None when not even the
      descriptor fits. */
  ghost function OpenTrace(v: Volume, live: Live, total: nat, root: Node, names: seq<CString>): Option<Trace> {
    match Alloc(live, total, DESCRIPTOR_BYTES)
    case None => None
    case Some(live') => Some(Lookup(v, live', total, root, names))
  }

  /** What open reports for each end of the walk over n components. */
  ghost predicate Reports(res: OpenResult, trace: Option<Trace>, n: nat)
    reads if res.Opened? then {res.desc} else {}
  {
    match trace
    case None => res == Error(-ENOMEM)
    case Some(Arrives(FileNode(r))) =>
      && res.Opened? && res.desc.pos == 0
      && res.desc.item.Some? && res.desc.item.value.FileItem? && res.desc.item.value.record == r
    case Some(Arrives(DirNode(_, _))) => res == Error(-EINVARG)
    case Some(MeetsFile) => res == Error(-EIO)
    case Some(NullAt(_)) => res == if Dereferences(trace.value, n) then OpenFault else Error(-EIO)
  }

  ghost predicate Opens(trace: Option<Trace>) {
    trace.Some? && trace.value.Arrives? && trace.value.node.FileNode?
  }

  ghost predicate Faults(trace: Option<Trace>, n: nat) {
    trace.Some? && Dereferences(trace.value, n)
  }

  /** fat16_open. */
  method Open(k: Kheap, d: FatDisk, root: Directory, path: PathPart?, mode: nat, ghost nodes: seq<PathPart>)
    returns (res: OpenResult)
    requires k.Valid() && d.Valid()
    requires path != null ==> PathOk(path, nodes) && InScope(d.vol, RootNode(root), Names(nodes))
    modifies k.heap, k.heap.entries, k.words, d.clusterStream, d.fatStream
    ensures k.Valid()
    ensures path == null ==> res == Error(-EINVARG)
    ensures path != null && mode != 0 ==> res == Error(-ERDONLY)
    ensures path != null && mode == 0 ==>
      var trace := OpenTrace(d.vol, old(k.heap.live), k.heap.entries.Length, RootNode(root), Names(nodes));
      Reports(res, trace, |nodes|) && (trace.None? <==> old(k.Room()) == 0)
    ensures res.Opened? ==> fresh(res.desc) && DescriptorOwned(k, old(k.heap.live), res.desc)
    ensures res.Error? ==> k.heap.live == old(k.heap.live) && k.heap.entries[..] == old(k.heap.entries[..])
  {
    hide IsBlockPtr, BlockOf, VolumeOk, ItemOk, Extends, Runs, InScope, Lookup, PathOk, WalkOk,
         Names, RunsOk, LongestFree, Alloc;
    if path == null {
      return Error(-EINVARG);
    }
    if mode != FILE_MODE_READ {
      return Error(-ERDONLY);
    }
    ghost var base := k.heap.live;
    OneBlock(DESCRIPTOR_BYTES);
    var addr := TryAlloc(k, DESCRIPTOR_BYTES);
    if addr == 0 {
      return Error(-ENOMEM);
    }
    ExtendOnce(base, BlockOf(k.heap.saddr, addr), 1);
    var desc := new FileDescriptor(addr);
    ghost var mid := k.heap.live;
    var entry := GetDirectoryEntry(k, d, root, path, nodes);
    match entry {
      case Fault =>
        return OpenFault;
      case NoItem =>
        FreeBlock(k, addr);
        return Error(-EIO);
      case Item(item) =>
        desc.item := Some(item);
        if item.DirItem? {
          DropItem(mid, k.heap.live, Runs(k.heap.saddr, item));
          FreeItem(k, item);
          FreeBlock(k, addr);
          return Error(-EINVARG);
        }
        desc.pos := 0;
        return Opened(desc);
    }
  }

  /** fat16_close. */
  method Close(k: Kheap, desc: FileDescriptor, ghost base: Live) returns (res: int)
    requires k.Valid() && DescriptorOwned(k, base, desc)
    modifies k.heap, k.heap.entries
    ensures k.Valid() && res == 0
    ensures k.heap.live == base
  {
    hide IsBlockPtr, BlockOf, ItemOk, Extends, Runs, RunsOk, Encode;
    ghost var b := BlockOf(k.heap.saddr, desc.addr);
    ExtendOnce(base, b, 1);
    DropItem(base[b := 1], k.heap.live, Runs(k.heap.saddr, desc.item.value));
    FreeItem(k, desc.item.value);
    FreeBlock(k, desc.addr);
    return 0;
  }

  /** A client that opens a path and closes what it got: whatever the path, the
      mode and the state of the heap, the heap table ends as it began, unless the
      walk gives a null item for a component neither first nor last. */
  method OpenThenClose(k: Kheap, d: FatDisk, root: Directory, path: PathPart?, mode: nat, ghost nodes: seq<PathPart>)
    returns (success: bool, fault: bool)
    requires k.Valid() && d.Valid()
    requires path != null ==> PathOk(path, nodes) && InScope(d.vol, RootNode(root), Names(nodes))
    modifies k.heap, k.heap.entries, k.words, d.clusterStream, d.fatStream
    ensures k.Valid()
    ensures !fault ==> k.heap.live == old(k.heap.live) && k.heap.entries[..] == old(k.heap.entries[..])
    ensures success <==>
      && path != null && mode == FILE_MODE_READ
      && Opens(OpenTrace(d.vol, old(k.heap.live), k.heap.entries.Length, RootNode(root), Names(nodes)))
    ensures fault <==>
      && path != null && mode == FILE_MODE_READ
      && Faults(OpenTrace(d.vol, old(k.heap.live), k.heap.entries.Length, RootNode(root), Names(nodes)), |nodes|)
    ensures fault ==> |nodes| >= 3
  {
    hide DescriptorOwned, InScope, PathOk, VolumeOk, Names, OpenTrace;
    ghost var base := k.heap.live;
    var res := Open(k, d, root, path, mode, nodes);
    success, fault := res.Opened?, res.OpenFault?;
    if res.Opened? {
      var closed := Close(k, res.desc, base);
    }
  }

  /** With room for the descriptor and everything along the path, opening it comes
      to what the volume says: a node exactly when the path means it, and a null
      item exactly for the first component that does not resolve. */
  lemma OpenWithRoom(v: Volume, live: Live, total: nat, root: Node, names: seq<CString>)
    requires VolumeOk(v) && WalkOk(v, root, names) && RunsOk(live, total)
    requires RoomOf(live, total) > WalkNeed(v, root, names)
    ensures var trace := OpenTrace(v, live, total, root, names);
      && trace.Some?
      && (forall n :: trace.value == Arrives(n) <==> PathMeans(v, root, names) == Some(n))
      && (forall j: nat :: trace.value == NullAt(j) <==> MissingAt(v, root, names) == Some(j))
  {
    hide RoomOf, RunsOk, WalkNeed, Lookup, Alloc, PathMeans, MissingAt, VolumeOk, WalkOk;
    OneBlock(DESCRIPTOR_BYTES);
    AllocRoom(live, total, DESCRIPTOR_BYTES);
    LookupMeaning(v, Alloc(live, total, DESCRIPTOR_BYTES).value, total, root, names);
  }
}
