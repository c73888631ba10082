/** Mounting a volume: boot header, streams and root directory
    (src/fs/fat/fat16.c, src/disk/streamer.c). */
module FatMount {
  import opened Machine
  import opened Streamer
  import opened HeapRuns
  import opened HeapOps
  import opened KernelHeap
  import opened FatVolume
  import opened FatReader
  import opened FatNames
  import opened FatDirectory
  import opened FatItems

  const HEADER_BYTES := 62
  const PRIVATE_BYTES := 92
  const STREAM_BYTES := 8
  const FAT16_SIGNATURE: Byte := 0x29

  /** The fields of the boot header the driver uses. */
  function ParseHeader(bytes: seq<Byte>): Header
    requires |bytes| == HEADER_BYTES
  {
    Header(bytes[13], Le16(bytes, 14), bytes[16], Le16(bytes, 17), Le16(bytes, 22))
  }

  function Signature(bytes: seq<Byte>): Byte
    requires |bytes| == HEADER_BYTES
  {
    bytes[38]
  }

  /** The volume an image claims to be. */
  function VolumeOf(image: Image): Volume
    requires |image| >= HEADER_BYTES
  {
    Volume(image, ParseHeader(image[..HEADER_BYTES]))
  }

  /** The image has a boot sector, and if it is signed as FAT16 its geometry fits
      the image. */
  predicate MountOk(image: Image) {
    && ImageOk(image) && |image| >= SECTOR_SIZE
    && (Signature(image[..HEADER_BYTES]) == FAT16_SIGNATURE ==> VolumeOk(VolumeOf(image)))
  }

  /** Number of records before the first blank one, at most max. */
  function RecordsBeforeBlank(data: seq<Byte>, max: nat, from: nat): (n: nat)
    requires RECORD_SIZE * max <= |data| && from <= max
    ensures from <= n <= max && (forall i: nat | from <= i < n :: !IsBlank(Rec(data, i)))
    ensures n < max ==> IsBlank(Rec(data, n))
    decreases max - from
  {
    if from == max || IsBlank(Rec(data, from)) then from else RecordsBeforeBlank(data, max, from + 1)
  }

  function RootPos(h: Header): nat {
    RootSector(h) * SECTOR_SIZE
  }

  /** The root directory as it lies in the image. */
  function RootData(v: Volume): (data: seq<Byte>)
    requires VolumeOk(v)
    ensures |data| == RootBytes(v.header)
  {
    RootInImage(v);
    v.image[RootPos(v.header)..RootPos(v.header) + RootBytes(v.header)]
  }

  lemma RootInImage(v: Volume)
    requires VolumeOk(v)
    ensures RootPos(v.header) + RootBytes(v.header) <= |v.image| < 0x8000_0000
    ensures RootPos(v.header) % SECTOR_SIZE == 0
  {
  }

  /** struct fat_private with the addresses of its heap objects. */
  class Mount {
    const addr: U32
    const streamAddrs: seq<U32>
    const disk: FatDisk
    const root: Directory

    constructor (addr: U32, streamAddrs: seq<U32>, disk: FatDisk, root: Directory)
      ensures this.addr == addr && this.streamAddrs == streamAddrs && this.disk == disk && this.root == root
    {
      this.addr := addr;
      this.streamAddrs := streamAddrs;
      this.disk := disk;
      this.root := root;
    }
  }

  /** fat16_get_total_items_for_directory, on the root directory: one 32-byte read
      per record, stopping at the first blank one. */
  method CountRootRecords(d: FatDisk) returns (n: nat)
    requires d.Valid()
    modifies d.directoryStream
    ensures n == RecordsBeforeBlank(RootData(d.vol), d.vol.header.rootDirEntries, 0)
  {
    hide VolumeOk, RecordsBeforeBlank, Splice;
    var h := d.vol.header;
    RootInImage(d.vol);
    VolumeImageOk(d.vol);
    var max := h.rootDirEntries;
    var res := d.directoryStream.Seek((h.fatCopies * h.sectorsPerFat + h.reservedSectors) * SECTOR_SIZE);
    var item := new Byte[RECORD_SIZE];
    n := 0;
    while n < max
      invariant 0 <= n <= max
      invariant d.directoryStream.pos == RootPos(h) + RECORD_SIZE * n
      invariant RecordsBeforeBlank(RootData(d.vol), max, 0) == RecordsBeforeBlank(RootData(d.vol), max, n)
    {
      RootRecord(d.vol, n);
      ReadWhole(item[..], Rec(RootData(d.vol), n));
      res := d.directoryStream.Read(item, 0, RECORD_SIZE);
      assert item[..] == Rec(RootData(d.vol), n);
      assert item[0] == item[..][0];
      BlankStep(RootData(d.vol), max, n);
      if item[0] == DIRECTORY_EMPTY {
        return;
      }
      n := n + 1;
    }
    BlankStep(RootData(d.vol), max, n);
  }

  lemma ReadWhole(buffer: seq<Byte>, bytes: seq<Byte>)
    requires |buffer| == |bytes|
    ensures Splice(buffer, 0, bytes) == bytes
  {
  }

  lemma BlankStep(data: seq<Byte>, max: nat, n: nat)
    requires RECORD_SIZE * max <= |data| && n <= max
    ensures n == max || IsBlank(Rec(data, n)) ==> RecordsBeforeBlank(data, max, n) == n
    ensures n < max && !IsBlank(Rec(data, n)) ==>
      RecordsBeforeBlank(data, max, n) == RecordsBeforeBlank(data, max, n + 1)
  {
  }

  /** Where record n of the root directory lies, and that one read returns it. */
  lemma RootRecord(v: Volume, n: nat)
    requires VolumeOk(v) && n < v.header.rootDirEntries
    ensures RECORD_SIZE * (n + 1) <= |RootData(v)|
    ensures var p := RootPos(v.header) + RECORD_SIZE * n;
      && p + RECORD_SIZE <= |v.image| && Aligned(p, RECORD_SIZE)
      && v.image[p..p + RECORD_SIZE] == Rec(RootData(v), n)
  {
    hide VolumeOk;
    RootInImage(v);
    RecordAligned(RootPos(v.header), n);
    var from := RootPos(v.header);
    SliceOfSlice(v.image, from, from + RootBytes(v.header), RECORD_SIZE * n, RECORD_SIZE * (n + 1));
  }

  lemma RecordAligned(base: nat, n: nat)
    requires base % SECTOR_SIZE == 0
    ensures Aligned(base + RECORD_SIZE * n, RECORD_SIZE)
  {
    var q, r := n / 16, n % 16;
    assert n == 16 * q + r;
    var b := base / SECTOR_SIZE;
    assert base == b * SECTOR_SIZE;
    DivModUnique(base + RECORD_SIZE * n, SECTOR_SIZE, b + q, RECORD_SIZE * r);
  }

  /** fat16_get_root_directory. */
  method GetRootDirectory(k: Kheap, d: FatDisk) returns (res: int, root: Directory)
    requires k.Valid() && d.Valid()
    modifies k.heap, k.heap.entries, k.words, d.directoryStream
    ensures k.Valid() && (res == 0 || res == -ENOMEM)
    ensures res == 0 <==> Alloc(old(k.heap.live), k.heap.entries.Length, RootBytes(d.vol.header)).Some?
    ensures res != 0 ==> k.heap.live == old(k.heap.live)
    ensures res == 0 ==> k.Room() + BlocksFor(RootBytes(d.vol.header)) >= old(k.Room())
    ensures res == 0 ==>
      && IsBlockPtr(k, root.itemAddr) && BlockOf(k.heap.saddr, root.itemAddr) !in old(k.heap.live)
      && k.heap.live == old(k.heap.live)[BlockOf(k.heap.saddr, root.itemAddr) := BlocksFor(RootBytes(d.vol.header))]
      && root.data == RootData(d.vol)
      && root.total == RecordsBeforeBlank(RootData(d.vol), d.vol.header.rootDirEntries, 0)
  {
    hide RecordsBeforeBlank, RunsOk, Encode, RootData, VolumeOk, IsBlockPtr, BlockOf, Alloc;
    var size := d.vol.header.rootDirEntries * RECORD_SIZE;
    RootInImage(d.vol);
    BlocksForIsCeiling(size);
    var total := CountRootRecords(d);
    var addr := TryAlloc(k, size);
    if addr == 0 {
      return -ENOMEM, Directory(0, [], 0);
    }
    var data := ReadRootRecords(d);
    return 0, Directory(addr, data, total);
  }

  /** The single read of the whole root directory. */
  method ReadRootRecords(d: FatDisk) returns (data: seq<Byte>)
    requires d.Valid() && d.vol.header.rootDirEntries > 0
    modifies d.directoryStream
    ensures data == RootData(d.vol)
  {
    hide Splice, VolumeOk;
    var h := d.vol.header;
    RootInImage(d.vol);
    VolumeImageOk(d.vol);
    var dir := new Byte[h.rootDirEntries * RECORD_SIZE];
    var res := d.directoryStream.Seek((h.fatCopies * h.sectorsPerFat + h.reservedSectors) * SECTOR_SIZE);
    ReadWhole(dir[..], RootData(d.vol));
    res := d.directoryStream.Read(dir, 0, dir.Length);
    return dir[..];
  }

  /** diskstreamer_new: the allocation is not checked by the source. */
  method NewStream(k: Kheap, image: Image) returns (addr: U32, stream: DiskStream)
    requires k.Valid() && k.heap.FreeBlocks() >= 1
    modifies k.heap, k.heap.entries, k.words
    ensures k.Valid() && fresh(stream) && stream.image == image && stream.pos == 0
    ensures IsBlockPtr(k, addr) && BlockOf(k.heap.saddr, addr) !in old(k.heap.live)
    ensures k.heap.live == old(k.heap.live)[BlockOf(k.heap.saddr, addr) := 1]
    ensures Alloc(old(k.heap.live), k.heap.entries.Length, STREAM_BYTES) == Some(k.heap.live)
    ensures k.heap.FreeBlocks() == old(k.heap.FreeBlocks()) - 1 && k.Room() >= old(k.Room()) - 1
  {
    addr := AllocBlock(k, STREAM_BYTES);
    stream := new DiskStream(image);
  }

  /** The blocks of the private structure and its three streams. */
  ghost function MountBlocks(saddr: U32, addr: U32, streamAddrs: seq<U32>): seq<nat>
    requires |streamAddrs| == 3
  {
    [BlockOf(saddr, addr),
     BlockOf(saddr, streamAddrs[0]), BlockOf(saddr, streamAddrs[1]), BlockOf(saddr, streamAddrs[2])]
  }

  /** The live runs after allocating n streams. */
  ghost function AllocStreams(live: Live, total: nat, n: nat): Option<Live> {
    if n == 0 then Some(live)
    else
      match AllocStreams(live, total, n - 1)
      case None => None
      case Some(live') => Alloc(live', total, STREAM_BYTES)
  }

  /** The live runs when mounting comes to its root directory: the private
      structure and four streams have been allocated. */
  ghost function BeforeRoot(live: Live, total: nat): Option<Live> {
    match Alloc(live, total, PRIVATE_BYTES)
    case None => None
    case Some(live') => AllocStreams(live', total, 4)
  }

  /** The root directory of the image gets its blocks. */
  ghost predicate RootPlaced(live: Live, total: nat, image: Image)
    requires |image| >= HEADER_BYTES
  {
    && BeforeRoot(live, total).Some?
    && Alloc(BeforeRoot(live, total).value, total, RootBytes(VolumeOf(image).header)).Some?
  }

  /** fat16_init_private. */
  method InitPrivate(k: Kheap, image: Image, addr: U32, ghost base: Live)
    returns (addrs: seq<U32>, s0: DiskStream, s1: DiskStream, s2: DiskStream)
    requires k.Valid() && k.heap.FreeBlocks() >= 3
    requires Added(base, k.heap.live, [BlockOf(k.heap.saddr, addr)])
    modifies k.heap, k.heap.entries, k.words
    ensures k.Valid() && k.heap.FreeBlocks() == old(k.heap.FreeBlocks()) - 3 && k.Room() >= old(k.Room()) - 3
    ensures AllocStreams(old(k.heap.live), k.heap.entries.Length, 3) == Some(k.heap.live)
    ensures fresh(s0) && fresh(s1) && fresh(s2) && s0 != s1 && s0 != s2 && s1 != s2
    ensures s0.image == s1.image == s2.image == image
    ensures |addrs| == 3 && forall i | 0 <= i < 3 :: IsBlockPtr(k, addrs[i])
    ensures Added(base, k.heap.live, MountBlocks(k.heap.saddr, addr, addrs))
  {
    hide RunsOk, Encode, BlockOf, IsBlockPtr, Added, Alloc;
    var a0, a1, a2;
    ghost var saddr, l0 := k.heap.saddr, k.heap.live;
    a0, s0 := NewStream(k, image);
    ghost var l1 := k.heap.live;
    a1, s1 := NewStream(k, image);
    ghost var l2 := k.heap.live;
    a2, s2 := NewStream(k, image);
    addrs := [a0, a1, a2];
    ThreeStreams(l0, l1, l2, k.heap.live, k.heap.entries.Length);
    ghost var b := [BlockOf(saddr, addr)];
    AddedOneMore(base, l0, b, BlockOf(saddr, a0));
    AddedOneMore(base, l1, b + [BlockOf(saddr, a0)], BlockOf(saddr, a1));
    AddedOneMore(base, l2, b + [BlockOf(saddr, a0)] + [BlockOf(saddr, a1)], BlockOf(saddr, a2));
    assert b + [BlockOf(saddr, a0)] + [BlockOf(saddr, a1)] + [BlockOf(saddr, a2)] == MountBlocks(saddr, addr, addrs);
  }

  lemma ThreeStreams(l0: Live, l1: Live, l2: Live, l3: Live, total: nat)
    requires Alloc(l0, total, STREAM_BYTES) == Some(l1) && Alloc(l1, total, STREAM_BYTES) == Some(l2)
    requires Alloc(l2, total, STREAM_BYTES) == Some(l3)
    ensures AllocStreams(l0, total, 3) == Some(l3)
    ensures AllocStreams(l0, total, 4) == Alloc(l3, total, STREAM_BYTES)
  {
    hide Alloc;
    assert AllocStreams(l0, total, 0) == Some(l0);
    assert AllocStreams(l0, total, 1) == Some(l1);
    assert AllocStreams(l0, total, 2) == Some(l2);
  }

  /** fat16_free_private without a root directory: the streams, then the private
      structure. */
  method FreePrivate(k: Kheap, addr: U32, addrs: seq<U32>, ghost base: Live)
    requires k.Valid() && |addrs| == 3
    requires IsBlockPtr(k, addr) && forall i | 0 <= i < 3 :: IsBlockPtr(k, addrs[i])
    requires Added(base, k.heap.live, MountBlocks(k.heap.saddr, addr, addrs))
    modifies k.heap, k.heap.entries
    ensures k.Valid() && k.heap.live == base
  {
    hide RunsOk, Encode, BlockOf, IsBlockPtr, WithBlocks, WithoutBlocks;
    ghost var saddr, live, blocks := k.heap.saddr, k.heap.live, MountBlocks(k.heap.saddr, addr, addrs);
    WithBlocksKeys(base, blocks);
    WithoutAdded(base, live, blocks);
    assert blocks[1] != blocks[2] && blocks[1] != blocks[3] && blocks[2] != blocks[3];
    assert blocks[0] != blocks[1] && blocks[0] != blocks[2] && blocks[0] != blocks[3];
    assert forall i | 0 <= i < 4 :: blocks[i] in live;
    FreeBlock(k, addrs[0]);
    FreeBlock(k, addrs[1]);
    FreeBlock(k, addrs[2]);
    FreeBlock(k, addr);
    FourGone(live, blocks);
  }

  lemma FourGone(live: Live, blocks: seq<nat>)
    requires |blocks| == 4
    ensures live - {blocks[1]} - {blocks[2]} - {blocks[3]} - {blocks[0]} == WithoutBlocks(live, blocks)
  {
    assert (set b | b in blocks) == {blocks[0], blocks[1], blocks[2], blocks[3]};
  }

  /** What mounting leaves in the heap: private structure, three streams and the
      root directory, on top of base. */
  ghost predicate Mounted(saddr: U32, base: Live, live: Live, m: Mount) {
    && |m.streamAddrs| == 3 && m.disk.Valid()
    && (exists mid: Live ::
          && Added(base, mid, MountBlocks(saddr, m.addr, m.streamAddrs))
          && BlockOf(saddr, m.root.itemAddr) !in mid
          && live == mid[BlockOf(saddr, m.root.itemAddr) := BlocksFor(RootBytes(m.disk.vol.header))])
  }

  /** fat16_resolve. Stream allocations are not checked by the source, so either
      no block is free, and the first allocation reports it, or five are. */
  method Resolve(k: Kheap, image: Image) returns (res: int, m: Mount?)
    requires k.Valid() && MountOk(image)
    requires k.heap.FreeBlocks() == 0 || k.heap.FreeBlocks() >= 5
    modifies k.heap, k.heap.entries, k.words
    ensures k.Valid()
    ensures res == 0 || res == -ENOMEM || res == -EFSNOTUS || res == -EIO
    ensures res == 0 <==> m != null
    ensures res == -ENOMEM <==> old(k.heap.FreeBlocks()) == 0
    ensures res == -EFSNOTUS <==>
      old(k.heap.FreeBlocks()) >= 5 && Signature(image[..HEADER_BYTES]) != FAT16_SIGNATURE
    ensures res != 0 ==> k.heap.live == old(k.heap.live)
    ensures res == 0 ==> fresh(m) && Mounted(k.heap.saddr, old(k.heap.live), k.heap.live, m) && MountsImage(m, image)
    ensures res == 0 ==> fresh(m.disk.clusterStream) && fresh(m.disk.fatStream) && fresh(m.disk.directoryStream)
    ensures res == 0 ==> k.Room() + MountBlockCount(image) >= old(k.Room())
    ensures res == -EIO <==>
      && old(k.heap.FreeBlocks()) >= 5 && Signature(image[..HEADER_BYTES]) == FAT16_SIGNATURE
      && !RootPlaced(old(k.heap.live), k.heap.entries.Length, image)
  {
    hide RunsOk, Encode, BlockOf, IsBlockPtr, Added, MountBlocks, RecordsBeforeBlank, RootData,
         VolumeOk, Splice, LongestFree, Alloc, AllocStreams;
    ghost var base := k.heap.live;
    OneBlock(PRIVATE_BYTES);
    m := null;
    var addr := TryAlloc(k, PRIVATE_BYTES);
    if addr == 0 {
      return -ENOMEM, null;
    }
    FirstAdded(base, BlockOf(k.heap.saddr, addr));
    ghost var l0 := k.heap.live;
    var addrs, s0, s1, s2 := InitPrivate(k, image, addr, base);
    FourStreams(l0, k.heap.live, k.heap.entries.Length);
    res, m := MountVolume(k, image, addr, addrs, s0, s1, s2, base);
  }

  /** Blocks mounting takes at its peak. */
  ghost function MountBlockCount(image: Image): nat
    requires |image| >= HEADER_BYTES
  {
    5 + BlocksFor(RootBytes(VolumeOf(image).header))
  }

  lemma FourStreams(l0: Live, l3: Live, total: nat)
    requires AllocStreams(l0, total, 3) == Some(l3)
    ensures AllocStreams(l0, total, 4) == Alloc(l3, total, STREAM_BYTES)
  {
    hide Alloc;
  }

  /** Mounting never succeeds on a volume whose root directory has no entries, and
      on every other succeeds when the longest free stretch holds all it allocates. */
  lemma RootPlacedIff(live: Live, total: nat, image: Image)
    requires |image| >= HEADER_BYTES && RunsOk(live, total)
    ensures VolumeOf(image).header.rootDirEntries == 0 ==> !RootPlaced(live, total, image)
    ensures var bytes := RootBytes(VolumeOf(image).header);
      bytes > 0 && RoomOf(live, total) >= MountBlockCount(image) ==> RootPlaced(live, total, image)
  {
    hide RunsOk, RoomOf, Alloc, VolumeOf;
    var bytes := RootBytes(VolumeOf(image).header);
    OneBlock(PRIVATE_BYTES);
    AllocRoom(live, total, PRIVATE_BYTES);
    if Alloc(live, total, PRIVATE_BYTES).Some? {
      StreamsRoom(Alloc(live, total, PRIVATE_BYTES).value, total, 4);
    }
    if BeforeRoot(live, total).Some? {
      BlocksForIsCeiling(bytes);
      AllocRoom(BeforeRoot(live, total).value, total, bytes);
    }
  }

  lemma {:induction false} StreamsRoom(live: Live, total: nat, n: nat)
    requires RunsOk(live, total)
    ensures RoomOf(live, total) >= n ==> AllocStreams(live, total, n).Some?
    ensures AllocStreams(live, total, n).Some? ==>
      var live' := AllocStreams(live, total, n).value;
      RunsOk(live', total) && RoomOf(live', total) + n >= RoomOf(live, total)
  {
    hide RunsOk, RoomOf, Alloc;
    if n > 0 {
      StreamsRoom(live, total, n - 1);
      if AllocStreams(live, total, n - 1).Some? {
        OneBlock(STREAM_BYTES);
        AllocRoom(AllocStreams(live, total, n - 1).value, total, STREAM_BYTES);
      }
    }
  }

  /** fat16_resolve from the point where the private structure is ready. */
  method MountVolume(k: Kheap, image: Image, addr: U32, addrs: seq<U32>,
                     s0: DiskStream, s1: DiskStream, s2: DiskStream, ghost base: Live)
    returns (res: int, m: Mount?)
    requires k.Valid() && MountOk(image) && k.heap.FreeBlocks() >= 1
    requires s0.image == s1.image == s2.image == image && s0 != s1 && s0 != s2 && s1 != s2
    requires |addrs| == 3 && IsBlockPtr(k, addr) && forall i | 0 <= i < 3 :: IsBlockPtr(k, addrs[i])
    requires Added(base, k.heap.live, MountBlocks(k.heap.saddr, addr, addrs))
    modifies k.heap, k.heap.entries, k.words, s2
    ensures k.Valid() && (res == 0 || res == -EFSNOTUS || res == -EIO) && (res == 0 <==> m != null)
    ensures res == -EFSNOTUS <==> Signature(image[..HEADER_BYTES]) != FAT16_SIGNATURE
    ensures res != 0 ==> k.heap.live == base
    ensures res == 0 ==> fresh(m) && Mounted(k.heap.saddr, base, k.heap.live, m) && MountsImage(m, image)
    ensures res == 0 ==> m.disk.clusterStream == s0 && m.disk.fatStream == s1 && m.disk.directoryStream == s2
    ensures res == 0 ==> k.Room() + 1 + BlocksFor(RootBytes(m.disk.vol.header)) >= old(k.Room())
    ensures res == -EIO <==>
      && Signature(image[..HEADER_BYTES]) == FAT16_SIGNATURE
      && match Alloc(old(k.heap.live), k.heap.entries.Length, STREAM_BYTES)
         case None => true
         case Some(live) => Alloc(live, k.heap.entries.Length, RootBytes(VolumeOf(image).header)).None?
  {
    hide RunsOk, Encode, BlockOf, IsBlockPtr, Added, MountBlocks, RecordsBeforeBlank, RootData,
         VolumeOk, Splice, LongestFree, Alloc;
    ghost var mid := k.heap.live;
    var streamAddr, stream := NewStream(k, image);
    ghost var b := BlockOf(k.heap.saddr, streamAddr);
    DropLast(mid, b);
    var header := ReadHeader(stream);
    if Signature(header) != FAT16_SIGNATURE {
      FreeBlock(k, streamAddr);
      FreePrivate(k, addr, addrs, base);
      return -EFSNOTUS, null;
    }
    var disk := new FatDisk(Volume(image, ParseHeader(header)), s0, s1, s2);
    BlocksForIsCeiling(RootBytes(disk.vol.header));
    var root;
    res, root := GetRootDirectory(k, disk);
    if res != 0 {
      FreeBlock(k, streamAddr);
      FreePrivate(k, addr, addrs, base);
      return -EIO, null;
    }
    DropFirst(mid, b, BlockOf(k.heap.saddr, root.itemAddr), BlocksFor(RootBytes(disk.vol.header)));
    FreeBlock(k, streamAddr);
    m := new Mount(addr, addrs, disk, root);
  }

  /** The mount reads this image, and its root directory holds the records of the
      image's root directory up to the first blank one. */
  ghost predicate MountsImage(m: Mount, image: Image) {
    && |image| >= HEADER_BYTES && m.disk.vol == VolumeOf(image) && VolumeOk(m.disk.vol)
    && m.root.data == RootData(m.disk.vol)
    && RECORD_SIZE * m.disk.vol.header.rootDirEntries <= |m.root.data|
    && m.root.total == RecordsBeforeBlank(m.root.data, m.disk.vol.header.rootDirEntries, 0)
  }

  /** Reading the boot header. */
  method ReadHeader(stream: DiskStream) returns (header: seq<Byte>)
    requires stream.pos == 0 && ImageOk(stream.image) && |stream.image| >= SECTOR_SIZE
    modifies stream
    ensures header == stream.image[..HEADER_BYTES]
  {
    var out := new Byte[HEADER_BYTES];
    var res := stream.Read(out, 0, HEADER_BYTES);
    return out[..];
  }

  lemma DropLast(live: Live, b: nat)
    requires b !in live
    ensures live[b := 1] - {b} == live
  {
  }

  lemma DropFirst(live: Live, b: nat, c: nat, n: nat)
    requires b !in live && c !in live[b := 1]
    ensures live[b := 1][c := n] - {b} == live[c := n]
  {
  }

  lemma FirstAdded(base: Live, b: nat)
    requires b !in base
    ensures Added(base, base[b := 1], [b])
  {
    AddedOneMore(base, base, [], b);
    assert [] + [b] == [b];
  }
}
