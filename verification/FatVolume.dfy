/** A FAT16 volume image: geometry, the file allocation table, cluster chains
    and the bytes they hold (src/fs/fat/fat16.c; Microsoft, "FAT: General
    Overview of On-Disk Format", version 1.03, "FAT Data Structure"). */
module FatVolume {
  import opened Machine
  import opened Streamer

  const RECORD_SIZE := 32
  const FAT_ENTRY_SIZE := 2
  const FAT_ENTRIES := 65536

  // Allocation table values.
  const UNUSED := 0
  const BAD_SECTOR := 0xFFF7
  const RESERVED_FROM := 0xFFF0
  const END_OF_CHAIN := 0xFFF8

  type U16 = x: int | 0 <= x < 65536

  datatype Header = Header(
    sectorsPerCluster: Byte,
    reservedSectors: U16,
    fatCopies: Byte,
    rootDirEntries: U16,
    sectorsPerFat: U16)

  datatype Volume = Volume(image: Image, header: Header)

  function Le16(s: seq<Byte>, at: nat): U16
    requires at + 2 <= |s|
  {
    (s[at] as int) + 0x100 * (s[at + 1] as int)
  }

  function Le32(s: seq<Byte>, at: nat): U32
    requires at + 4 <= |s|
  {
    (s[at] as int) + 0x100 * (s[at + 1] as int) + 0x1_0000 * (s[at + 2] as int) + 0x100_0000 * (s[at + 3] as int)
  }

  // --------------------------------------------------------------- geometry

  function RootSector(h: Header): nat {
    h.fatCopies * h.sectorsPerFat + h.reservedSectors
  }

  function RootBytes(h: Header): nat {
    h.rootDirEntries * RECORD_SIZE
  }

  /** The first sector after the root directory. */
  function EndingSector(h: Header): nat {
    RootSector(h) + RootBytes(h) / SECTOR_SIZE + if RootBytes(h) % SECTOR_SIZE == 0 then 0 else 1
  }

  function ClusterSize(v: Volume): (size: nat)
    ensures v.header.sectorsPerCluster >= 1 ==> size >= SECTOR_SIZE
  {
    v.header.sectorsPerCluster * SECTOR_SIZE
  }

  /** fat16_cluster_to_sector. */
  function ClusterSector(v: Volume, cluster: int): int {
    EndingSector(v.header) + (cluster - 2) * v.header.sectorsPerCluster
  }

  function ClusterPos(v: Volume, cluster: int): int {
    ClusterSector(v, cluster) * SECTOR_SIZE
  }

  function FatPos(v: Volume, cluster: nat): nat {
    v.header.reservedSectors * SECTOR_SIZE + cluster * FAT_ENTRY_SIZE
  }

  /** The image holds the whole allocation table and root directory, and every
      byte position in it is a signed 32-bit value. */
  predicate VolumeOk(v: Volume) {
    && ImageOk(v.image)
    && v.header.sectorsPerCluster >= 1
    && FatPos(v, FAT_ENTRIES) <= |v.image|
    && EndingSector(v.header) * SECTOR_SIZE <= |v.image|
  }

  lemma VolumeImageOk(v: Volume)
    requires VolumeOk(v)
    ensures ImageOk(v.image) && ClusterSize(v) >= SECTOR_SIZE
  {
  }

  /** The bytes of the cluster lie inside the image. */
  predicate ClusterFits(v: Volume, cluster: int) {
    0 <= ClusterPos(v, cluster) && ClusterPos(v, cluster) + ClusterSize(v) <= |v.image|
  }

  // ----------------------------------------------------------------- chains

  function FatEntry(v: Volume, cluster: U16): U16
    requires VolumeOk(v)
  {
    Le16(v.image, FatPos(v, cluster))
  }

  /** The table values the chain walk follows. */
  predicate IsDataLink(entry: U16) {
    1 <= entry <= 0xFFEF
  }

  /** The cluster n links after `start`, if all those links are data links. */
  function Nth(v: Volume, start: U16, n: nat): Option<U16>
    requires VolumeOk(v)
  {
    if n == 0 then Some(start)
    else
      match Nth(v, start, n - 1)
      case None => None
      case Some(c) => if IsDataLink(FatEntry(v, c)) then Some(FatEntry(v, c)) else None
  }

  lemma {:induction false} ChainIsPrefixClosed(v: Volume, start: U16, m: nat, n: nat)
    requires VolumeOk(v) && m <= n && Nth(v, start, n).Some?
    ensures Nth(v, start, m).Some?
    decreases n - m
  {
    if m < n {
      ChainIsPrefixClosed(v, start, m, n - 1);
    }
  }

  /** Every cluster the chain reaches from the lo-th to the hi-th fits. */
  ghost predicate ClustersFit(v: Volume, start: U16, lo: nat, hi: nat)
    requires VolumeOk(v)
  {
    forall n: nat | lo <= n <= hi && Nth(v, start, n).Some? :: ClusterFits(v, Nth(v, start, n).value)
  }

  /** The chain has a cluster for byte number `last`. */
  predicate Reaches(v: Volume, start: U16, last: nat)
    requires VolumeOk(v)
  {
    Nth(v, start, Quot(last, ClusterSize(v))).Some?
  }

  /** The chain reaches, inside the image, all of [offset, offset + total). */
  ghost predicate ChainReadable(v: Volume, start: U16, offset: nat, total: nat)
    requires VolumeOk(v)
  {
    total > 0 ==>
      && Reaches(v, start, offset + total - 1)
      && ClustersFit(v, start, Quot(offset, ClusterSize(v)), Quot(offset + total - 1, ClusterSize(v)))
  }

  /** Where byte number i of the chain lies in the image. */
  ghost function BytePos(v: Volume, start: U16, i: nat): int
    requires VolumeOk(v) && Reaches(v, start, i)
  {
    ClusterPos(v, Nth(v, start, Quot(i, ClusterSize(v))).value) + Rem(i, ClusterSize(v))
  }

  /** Reading a byte range includes every byte of it. */
  lemma ChainByteReadable(v: Volume, start: U16, offset: nat, total: nat, i: nat)
    requires VolumeOk(v) && ChainReadable(v, start, offset, total) && offset <= i < offset + total
    ensures Reaches(v, start, i) && 0 <= BytePos(v, start, i) < |v.image|
  {
    var cs := ClusterSize(v);
    QuotMonotone(offset, i, cs);
    QuotMonotone(i, offset + total - 1, cs);
    ChainIsPrefixClosed(v, start, Quot(i, cs), Quot(offset + total - 1, cs));
    assert ClusterFits(v, Nth(v, start, Quot(i, cs)).value);
  }

  /** The bytes [offset, offset + total) of the file or directory whose chain
      starts at `start`. */
  ghost function ChainBytes(v: Volume, start: U16, offset: nat, total: nat): (bytes: seq<Byte>)
    requires VolumeOk(v) && ChainReadable(v, start, offset, total)
    ensures |bytes| == total
  {
    seq(total, i requires 0 <= i < total =>
      ChainByteReadable(v, start, offset, total, offset + i);
      v.image[BytePos(v, start, offset + i)])
  }
}
