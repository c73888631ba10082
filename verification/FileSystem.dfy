/** The parser, the lookup, the mount and the heap together: what a caller that
    starts from a path string gets (src/fs/pparser.c over src/fs/fat/fat16.c). */
module FileSystem {
  import opened Machine
  import opened Streamer
  import opened HeapRuns
  import opened HeapOps
  import opened KernelHeap
  import opened CStrings
  import opened PathSpec
  import opened PathParser
  import opened FatVolume
  import opened FatReader
  import opened FatItems
  import opened FatPaths
  import opened FatLookup
  import opened FatOpen
  import opened FatNames
  import opened FatDirectory
  import opened FatFile
  import opened FatTree
  import opened FatMount
  import opened CursorModel

  /** The components of a path. */
  function NamesOf(path: CString): seq<CString> {
    if |path| >= 3 then Components(path[3..]) else []
  }

  /** An accepted path whose walk from this root is in the scope of the model. */
  ghost predicate PathInScope(v: Volume, root: Node, path: CString) {
    Accepted(path) && PartsFit(path) && InScope(v, root, NamesOf(path))
  }

  /** The path names the file with this record. */
  ghost predicate PathNames(v: Volume, root: Node, path: CString, r: Record) {
    PathInScope(v, root, path) && PathMeans(v, root, NamesOf(path)) == Some(FileNode(r))
  }

  /** A component of the path that is neither the first nor the last does not
      resolve. */
  ghost predicate MiddleMissing(v: Volume, root: Node, path: CString) {
    && PathInScope(v, root, path)
    && MissingAt(v, root, NamesOf(path)).Some?
    && 0 < MissingAt(v, root, NamesOf(path)).value < |NamesOf(path)| - 1
  }

  /** Blocks that parsing the path and opening everything along it take. */
  ghost function RoomFor(v: Volume, root: Node, path: CString): nat {
    PeakBlocks(path) + if PathInScope(v, root, path) then WalkNeed(v, root, NamesOf(path)) else 0
  }

  lemma ParsedPathIsUsable(k: Kheap, root: PathRoot)
    requires Holdable(k, root) && root.nodes != []
    ensures root.first != null && PathOk(root.first, root.nodes)
  {
  }

  lemma AcceptedPeak(path: CString)
    requires Accepted(path)
    ensures |path| >= 3 && NamesOf(path) == Components(path[3..]) != []
    ensures PeakBlocks(path) == 2 * |NamesOf(path)| + 2
  {
  }

  /** The walk that opening the path makes on this heap, for reading. */
  ghost function PathTrace(v: Volume, live: Live, total: nat, root: Node, path: CString): Option<Trace> {
    OpenTrace(v, live, total, root, NamesOf(path))
  }

  /** With room for the walk, opening succeeds exactly on files, and dereferences
      null exactly when a middle component is missing. */
  lemma PathTraceWithRoom(v: Volume, live: Live, total: nat, root: Node, path: CString)
    requires PathInScope(v, root, path) && RunsOk(live, total)
    requires RoomOf(live, total) + PeakBlocks(path) > RoomFor(v, root, path)
    ensures var trace := PathTrace(v, live, total, root, path);
      && (forall r :: trace == Some(Arrives(FileNode(r))) <==> PathNames(v, root, path, r))
      && (Faults(trace, |NamesOf(path)|) <==> MiddleMissing(v, root, path))
  {
    hide RunsOk, RoomOf, WalkNeed, PathMeans, MissingAt, OpenTrace, NamesOf, PeakBlocks, VolumeOk, WalkOk, Accepted;
    ScopeOfPath(v, root, path);
    OpenWithRoom(v, live, total, root, NamesOf(path));
  }

  lemma ScopeOfPath(v: Volume, root: Node, path: CString)
    requires PathInScope(v, root, path)
    ensures Accepted(path) && PartsFit(path) && InScope(v, root, NamesOf(path))
  {
  }

  /** Parse a path, open it for reading, close what was opened and free the path.
      `mid` is the heap once the path is parsed: its components on top of what was
      there. The walk on that heap decides the outcome; unless it gives a null item
      for a component neither first nor last, the heap table is afterwards byte for
      byte what it was. */
  method OpenByPath(k: Kheap, d: FatDisk, root: Directory, path: CString)
    returns (success: bool, fault: bool, ghost mid: Live, ghost blocks: seq<nat>)
    requires k.Valid() && d.Valid() && PathInScope(d.vol, RootNode(root), path)
    requires k.heap.FreeBlocks() >= PeakBlocks(path)
    modifies k.heap, k.heap.entries, k.words, d.clusterStream, d.fatStream
    ensures k.Valid()
    ensures !fault ==> k.heap.entries[..] == old(k.heap.entries[..])
    ensures Added(old(k.heap.live), mid, blocks) && |blocks| == 2 * |NamesOf(path)| + 1
    ensures var trace := PathTrace(d.vol, mid, k.heap.entries.Length, RootNode(root), path);
      && (success <==> Opens(trace))
      && (fault <==> Faults(trace, |NamesOf(path)|))
    ensures fault ==> |NamesOf(path)| >= 3
    ensures old(k.Room()) >= RoomFor(d.vol, RootNode(root), path) ==>
      && (success <==> exists r :: PathNames(d.vol, RootNode(root), path, r))
      && (fault <==> MiddleMissing(d.vol, RootNode(root), path))
  {
    hide PathOk, InScope, Owns, DescriptorOwned, PathBlocks, Distinct, PointersOk, IsBlockPtr, PathInScope, PathNames,
         MiddleMissing, RoomFor, IsPartBuffer, Chained, Names, RunsOk, Components, Accepted, PartsFit, Linked,
         OpenTrace, RootNode;
    ghost var base, node := k.heap.live, RootNode(root);
    ScopeOfPath(d.vol, node, path);
    AcceptedPeak(path);
    var parsed := Parse(k, path);
    OwnedIsHoldable(k, base, parsed);
    ParsedPathIsUsable(k, parsed);
    mid, blocks := k.heap.live, PathBlocks(k.heap.saddr, parsed.addr, parsed.nodes);
    OwnedBlocks(k, base, parsed);
    if old(k.Room()) >= RoomFor(d.vol, node, path) {
      PathTraceWithRoom(d.vol, mid, k.heap.entries.Length, node, path);
    }
    success, fault := OpenThenClose(k, d, root, parsed.first, FILE_MODE_READ, parsed.nodes);
    if !fault {
      FreeRoot(k, parsed);
    }
  }

  lemma OwnedBlocks(k: Kheap, base: Live, root: PathRoot)
    requires Owns(k, base, root)
    ensures Added(base, k.heap.live, PathBlocks(k.heap.saddr, root.addr, root.nodes))
  {
  }

  /** Open a file that the walk arrives at, make any sequence of reads and seeks, and
      close it. */
  method OpenReadClose(k: Kheap, d: FatDisk, root: Directory, path: PathPart, ghost nodes: seq<PathPart>,
                       ops: seq<Op>, ghost r: Record)
    returns (log: seq<Step>)
    requires k.Valid() && d.Valid() && PathOk(path, nodes) && InScope(d.vol, RootNode(root), Names(nodes))
    requires OpenTrace(d.vol, k.heap.live, k.heap.entries.Length, RootNode(root), Names(nodes))
          == Some(Arrives(FileNode(r)))
    requires FileOk(d.vol, r) && ChainCovers(d.vol, r) && SizeOk(d.vol, r)
    modifies k.heap, k.heap.entries, k.words, d.clusterStream, d.fatStream
    ensures k.Valid() && k.heap.live == old(k.heap.live) && k.heap.entries[..] == old(k.heap.entries[..])
    ensures log == Run(Content(d.vol, r), 0, ops).0
  {
    hide PathOk, InScope, IsBlockPtr, Names, OpenTrace, RootNode, RunsOk, ChainCovers, SizeOk, FileOk, Run, Content,
         VolumeOk, ItemOk, Extends;
    ghost var base := k.heap.live;
    var res := Open(k, d, root, path, FILE_MODE_READ, nodes);
    log := Session(d, res.desc, ops, r);
    var closed := Close(k, res.desc, base);
  }

  /** Parse a path that names a covered file, open it, make any sequence of reads and
      seeks, close it and free the path: every call returns what a byte array holding
      the file would, and the heap is as it was. */
  method ReadByPath(k: Kheap, d: FatDisk, root: Directory, path: CString, ops: seq<Op>, ghost r: Record)
    returns (log: seq<Step>)
    requires k.Valid() && d.Valid() && PathNames(d.vol, RootNode(root), path, r)
    requires FileOk(d.vol, r) && ChainCovers(d.vol, r) && SizeOk(d.vol, r)
    requires k.Room() >= RoomFor(d.vol, RootNode(root), path)
    modifies k.heap, k.heap.entries, k.words, d.clusterStream, d.fatStream
    ensures k.Valid() && k.heap.live == old(k.heap.live) && k.heap.entries[..] == old(k.heap.entries[..])
    ensures log == Run(Content(d.vol, r), 0, ops).0
  {
    hide PathOk, InScope, Owns, DescriptorOwned, PathBlocks, Distinct, PointersOk, IsBlockPtr, PathInScope, PathNames,
         MiddleMissing, RoomFor, IsPartBuffer, Chained, Names, RunsOk, Components, Accepted, PartsFit, Linked,
         OpenTrace, RootNode, ChainCovers, SizeOk, FileOk, Run, Content;
    ghost var base, node := k.heap.live, RootNode(root);
    NamedInScope(d.vol, node, path, r);
    ScopeOfPath(d.vol, node, path);
    AcceptedPeak(path);
    RoomIsCounted(k.heap.entries[..]);
    RoomForPeak(d.vol, node, path);
    var parsed := Parse(k, path);
    OwnedIsHoldable(k, base, parsed);
    ParsedPathIsUsable(k, parsed);
    ghost var mid := k.heap.live;
    PathTraceWithRoom(d.vol, mid, k.heap.entries.Length, node, path);
    log := OpenReadClose(k, d, root, parsed.first, parsed.nodes, ops, r);
    FreeRoot(k, parsed);
  }

  lemma NamedInScope(v: Volume, root: Node, path: CString, r: Record)
    requires PathNames(v, root, path, r)
    ensures PathInScope(v, root, path)
  {
  }

  lemma RoomForPeak(v: Volume, root: Node, path: CString)
    ensures RoomFor(v, root, path) >= PeakBlocks(path)
  {
  }

  /** The root directory as it lies in the image. */
  ghost function ImageRoot(image: Image): Node
    requires |image| >= HEADER_BYTES && VolumeOk(VolumeOf(image))
  {
    var data := RootData(VolumeOf(image));
    DirNode(data, RecordsBeforeBlank(data, VolumeOf(image).header.rootDirEntries, 0))
  }

  /** The root directory can be searched: its records lie in its buffer and none of
      those searched is blank. */
  lemma ImageRootIsUsable(image: Image)
    requires |image| >= HEADER_BYTES && VolumeOk(VolumeOf(image))
    ensures NodeOk(ImageRoot(image))
    ensures forall i: nat | i < ImageRoot(image).total :: !IsBlank(Rec(ImageRoot(image).data, i))
  {
    hide VolumeOk, RootData;
  }

  /** A signed image whose directories are sound, on which the path names a covered
      file. */
  ghost predicate ImageHolds(image: Image, path: CString, r: Record) {
    && MountOk(image) && Signature(image[..HEADER_BYTES]) == FAT16_SIGNATURE
    && VolumeOf(image).header.rootDirEntries > 0
    && var v := VolumeOf(image);
       && Sound(v, ImageRoot(image)) && Accepted(path) && PartsFit(path)
       && (ImageRootIsUsable(image);
           SoundInScope(v, ImageRoot(image), NamesOf(path));
           PathMeans(v, ImageRoot(image), NamesOf(path)) == Some(FileNode(r)))
       && FileOk(v, r) && ChainCovers(v, r) && SizeOk(v, r)
  }

  lemma HeldFileIsNamed(image: Image, path: CString, r: Record)
    requires ImageHolds(image, path, r)
    ensures MountOk(image) && Signature(image[..HEADER_BYTES]) == FAT16_SIGNATURE && VolumeOk(VolumeOf(image))
    ensures VolumeOf(image).header.rootDirEntries > 0
    ensures PathNames(VolumeOf(image), ImageRoot(image), path, r)
    ensures var v := VolumeOf(image); FileOk(v, r) && ChainCovers(v, r) && SizeOk(v, r)
  {
    ImageRootIsUsable(image);
    SoundInScope(VolumeOf(image), ImageRoot(image), NamesOf(path));
  }

  /** A mounted root directory is that of the image. */
  lemma MountedRootIsUsable(m: Mount, image: Image)
    requires MountsImage(m, image)
    ensures VolumeOk(VolumeOf(image)) && RootNode(m.root) == ImageRoot(image) && m.disk.vol == VolumeOf(image)
    ensures NodeOk(RootNode(m.root)) && forall i: nat | i < m.root.total :: !IsBlank(Rec(m.root.data, i))
  {
    ImageRootIsUsable(image);
  }

  lemma MountedDisk(saddr: U32, base: Live, live: Live, m: Mount)
    requires Mounted(saddr, base, live, m)
    ensures m.disk.Valid()
  {
  }

  /** Everything together. Mount a signed image, parse a path that names a covered
      file on it, open it, make any sequence of reads and seeks, close it and free
      the path: every call returns what a byte array holding the file would, and the
      heap holds the mounted volume and nothing else that was not there before. */
  method MountAndRead(k: Kheap, image: Image, path: CString, ops: seq<Op>, ghost r: Record)
    returns (m: Mount, log: seq<Step>)
    requires k.Valid() && ImageHolds(image, path, r)
    requires k.Room() >= MountBlockCount(image) + RoomFor(VolumeOf(image), ImageRoot(image), path)
    modifies k.heap, k.heap.entries, k.words
    ensures k.Valid() && fresh(m) && Mounted(k.heap.saddr, old(k.heap.live), k.heap.live, m) && MountsImage(m, image)
    ensures log == Run(Content(VolumeOf(image), r), 0, ops).0
  {
    hide RunsOk, Encode, PathNames, RoomFor, ImageRoot, VolumeOf, MountOk, Signature, FileOk, ChainCovers, SizeOk, Run,
         Content, MountsImage, Mounted, RootNode, VolumeOk, LongestFree, RootPlaced, ImageHolds, MountBlockCount;
    ghost var base := k.heap.live;
    HeldFileIsNamed(image, path, r);
    RoomIsCounted(k.heap.entries[..]);
    EnoughToMount(k.heap.live, k.heap.entries.Length, image);
    var res, mount := Resolve(k, image);
    m := mount;
    MountedRootIsUsable(m, image);
    MountedDisk(k.heap.saddr, base, k.heap.live, m);
    log := ReadByPath(k, m.disk, m.root, path, ops, r);
  }

  lemma EnoughToMount(live: Live, total: nat, image: Image)
    requires |image| >= HEADER_BYTES && RunsOk(live, total) && VolumeOf(image).header.rootDirEntries > 0
    requires RoomOf(live, total) >= MountBlockCount(image)
    ensures RootPlaced(live, total, image) && MountBlockCount(image) >= 5
  {
    hide RootPlaced, RunsOk, RoomOf;
    RootPlacedIff(live, total, image);
  }
}
