/** A whole volume written out part after part, and that the driver's geometry finds
    every part again: table entries, root directory, clusters, chains
    (src/fs/fat/fat16.c; Microsoft, "FAT: General Overview of On-Disk Format",
    version 1.03, "FAT Data Structure"). */
module FatFormat {
  import opened Machine
  import opened Streamer
  import opened FatVolume
  import opened FatChain
  import opened FatNames
  import opened FatAcyclic
  import opened FatMount
  import opened FatFields

  /** The parts of a volume: boot sector, the rest of the reserved sectors, the
      allocation table, the root directory and the clusters from number 2 on. */
  datatype Formatted = Formatted(
    boot: BootSector,
    reserved: seq<Byte>,
    table: seq<U16>,
    root: seq<Byte>,
    clusters: seq<seq<Byte>>)

  // ------------------------------------------------------------------ writing

  function Joined(parts: seq<seq<Byte>>): seq<Byte> {
    if parts == [] then [] else Joined(parts[..|parts| - 1]) + parts[|parts| - 1]
  }

  /** The table as little-endian words. */
  function WriteTable(table: seq<U16>): (bytes: seq<Byte>)
    ensures |bytes| == 2 * |table|
  {
    if table == [] then [] else WriteTable(table[..|table| - 1]) + Word16(table[|table| - 1])
  }

  function Copies(bytes: seq<Byte>, n: nat): (r: seq<Byte>)
    ensures |r| == n * |bytes|
  {
    if n == 0 then [] else bytes + Copies(bytes, n - 1)
  }

  /** Zeros up to the next sector boundary. */
  function SectorPadding(n: nat): seq<Byte> {
    Zeros(if n % SECTOR_SIZE == 0 then 0 else SECTOR_SIZE - n % SECTOR_SIZE)
  }

  function ReservedPart(f: Formatted): seq<Byte> {
    WriteBoot(f.boot) + f.reserved
  }

  function TablePart(f: Formatted): seq<Byte> {
    Copies(WriteTable(f.table), f.boot.fatCopies)
  }

  function RootPart(f: Formatted): seq<Byte> {
    f.root + SectorPadding(|f.root|)
  }

  function WriteImage(f: Formatted): Image {
    ReservedPart(f) + TablePart(f) + RootPart(f) + Joined(f.clusters)
  }

  predicate AllOfSize(parts: seq<seq<Byte>>, size: nat) {
    forall i | 0 <= i < |parts| :: |parts[i]| == size
  }

  /** The parts have the sizes the boot sector announces, and the image is large
      enough to look up any 16-bit cluster number and small enough for signed
      positions. */
  predicate FormatOk(f: Formatted) {
    && f.boot.signature == 0x29 && f.boot.sectorsPerCluster >= 1 && f.boot.fatCopies >= 1
    && |ReservedPart(f)| == f.boot.reservedSectors * SECTOR_SIZE
    && 2 * |f.table| == f.boot.sectorsPerFat * SECTOR_SIZE
    && |f.root| == f.boot.rootDirEntries * RECORD_SIZE
    && AllOfSize(f.clusters, f.boot.sectorsPerCluster * SECTOR_SIZE)
    && f.boot.reservedSectors * SECTOR_SIZE + 2 * FAT_ENTRIES <= |WriteImage(f)| < 0x8000_0000
  }

  function VolumeIn(f: Formatted): Volume
    requires FormatOk(f)
  {
    VolumeOf(WriteImage(f))
  }

  // ------------------------------------------------------------------ lengths

  lemma {:induction false} JoinedLength(parts: seq<seq<Byte>>, size: nat)
    requires AllOfSize(parts, size)
    ensures |Joined(parts)| == |parts| * size
    decreases |parts|
  {
    if parts != [] {
      JoinedLength(parts[..|parts| - 1], size);
      OneMore(|parts| - 1, size);
    }
  }

  lemma OneMore(n: nat, size: nat)
    ensures (n + 1) * size == n * size + size
  {
  }

  lemma PaddedLength(n: nat)
    ensures n + |SectorPadding(n)| == (n / SECTOR_SIZE + if n % SECTOR_SIZE == 0 then 0 else 1) * SECTOR_SIZE
  {
  }

  /** Each part begins where the driver's sector arithmetic says. */
  lemma PartLengths(f: Formatted)
    requires FormatOk(f)
    ensures |ReservedPart(f)| == f.boot.reservedSectors * SECTOR_SIZE
    ensures |TablePart(f)| == f.boot.fatCopies * f.boot.sectorsPerFat * SECTOR_SIZE
    ensures |RootPart(f)| ==
      (|f.root| / SECTOR_SIZE + if |f.root| % SECTOR_SIZE == 0 then 0 else 1) * SECTOR_SIZE
    ensures |Joined(f.clusters)| == |f.clusters| * (f.boot.sectorsPerCluster * SECTOR_SIZE)
  {
    hide WriteImage, Joined, SectorPadding;
    PaddedLength(|f.root|);
    JoinedLength(f.clusters, f.boot.sectorsPerCluster * SECTOR_SIZE);
    Associate(f.boot.fatCopies, f.boot.sectorsPerFat);
  }

  lemma Associate(a: nat, b: nat)
    ensures a * (b * SECTOR_SIZE) == a * b * SECTOR_SIZE
  {
  }

  // ------------------------------------------------------------------ mounting

  /** The header the driver parses is the written one. */
  lemma HeaderReadsBack(f: Formatted)
    requires FormatOk(f)
    ensures |WriteImage(f)| >= HEADER_BYTES
    ensures VolumeIn(f) == Volume(WriteImage(f),
      Header(f.boot.sectorsPerCluster, f.boot.reservedSectors, f.boot.fatCopies, f.boot.rootDirEntries,
             f.boot.sectorsPerFat))
    ensures Signature(WriteImage(f)[..HEADER_BYTES]) == FAT16_SIGNATURE
  {
    hide TablePart, RootPart, Joined, WriteBoot, ParseHeader, Signature;
    assert WriteImage(f)[..HEADER_BYTES] == WriteBoot(f.boot);
    ParseUndoesWrite(f.boot);
  }

  lemma SectorSum(a: nat, b: nat, c: nat, d: nat, size: nat)
    requires size == a * SECTOR_SIZE + b * SECTOR_SIZE + c * SECTOR_SIZE + d * SECTOR_SIZE
    ensures size % SECTOR_SIZE == 0
  {
  }

  /** A formatted image can be mounted; the root directory and the first cluster
      lie after the parts before them. */
  lemma FormatMounts(f: Formatted)
    requires FormatOk(f)
    ensures VolumeOk(VolumeIn(f)) && MountOk(WriteImage(f))
    ensures var h := VolumeIn(f).header;
      && RootPos(h) == |ReservedPart(f)| + |TablePart(f)|
      && EndingSector(h) * SECTOR_SIZE == |ReservedPart(f)| + |TablePart(f)| + |RootPart(f)|
  {
    hide ReservedPart, TablePart, RootPart, Joined, VolumeOf, VolumeIn, Signature;
    HeaderReadsBack(f);
    PartLengths(f);
    var b, n := f.boot, |f.root|;
    var rootSectors := n / SECTOR_SIZE + if n % SECTOR_SIZE == 0 then 0 else 1;
    Associate(|f.clusters|, b.sectorsPerCluster);
    SectorSum(b.reservedSectors, b.fatCopies * b.sectorsPerFat, rootSectors, |f.clusters| * b.sectorsPerCluster,
              |WriteImage(f)|);
    SumOfSectors(b.reservedSectors, b.fatCopies * b.sectorsPerFat, rootSectors);
    Positions(VolumeIn(f).header, rootSectors);
    ImageMounts(f);
  }

  lemma ImageMounts(f: Formatted)
    requires FormatOk(f) && VolumeOk(VolumeIn(f))
    ensures MountOk(WriteImage(f))
  {
    hide WriteImage, ParseHeader, Signature;
  }

  lemma SumOfSectors(a: nat, b: nat, c: nat)
    ensures (b + a) * SECTOR_SIZE == a * SECTOR_SIZE + b * SECTOR_SIZE
    ensures (b + a + c) * SECTOR_SIZE == a * SECTOR_SIZE + b * SECTOR_SIZE + c * SECTOR_SIZE
  {
  }

  lemma Positions(h: Header, rootSectors: nat)
    requires rootSectors == RootBytes(h) / SECTOR_SIZE + if RootBytes(h) % SECTOR_SIZE == 0 then 0 else 1
    ensures RootPos(h) == (h.fatCopies * h.sectorsPerFat + h.reservedSectors) * SECTOR_SIZE
    ensures EndingSector(h) == h.fatCopies * h.sectorsPerFat + h.reservedSectors + rootSectors
  {
  }

  // ------------------------------------------------------------------ reading

  lemma {:induction false} TableWord(table: seq<U16>, c: nat)
    requires c < |table|
    ensures Le16(WriteTable(table), 2 * c) == table[c]
    decreases |table|
  {
    hide Le16, Word16;
    var init := table[..|table| - 1];
    var head, last := WriteTable(init), Word16(table[|table| - 1]);
    assert WriteTable(table) == head + last + [];
    if c == |table| - 1 {
      Le16UndoesWord16(head, table[c], []);
    } else {
      TableWord(init, c);
      assert WriteTable(table) == [] + head + last;
      PartReads([], head, last, 2 * c);
    }
  }

  /** The driver's table lookup reads the written table. */
  lemma TableReadsBack(f: Formatted, c: nat)
    requires FormatOk(f) && c < |f.table| && c < FAT_ENTRIES
    ensures VolumeOk(VolumeIn(f)) && FatEntry(VolumeIn(f), c) == f.table[c]
  {
    hide ReservedPart, RootPart, Joined, VolumeOf, VolumeIn, VolumeOk, Le16, WriteTable;
    FormatMounts(f);
    HeaderReadsBack(f);
    PartLengths(f);
    var before, t := ReservedPart(f), WriteTable(f.table);
    var after := Copies(t, f.boot.fatCopies - 1) + RootPart(f) + Joined(f.clusters);
    assert WriteImage(f) == before + t + after;
    PartReads(before, t, after, 2 * c);
    TableWord(f.table, c);
  }

  /** The root directory the driver loads is the written one. */
  lemma RootReadsBack(f: Formatted)
    requires FormatOk(f)
    ensures VolumeOk(VolumeIn(f)) && RootData(VolumeIn(f)) == f.root
  {
    hide ReservedPart, TablePart, SectorPadding, Joined, VolumeOf, VolumeIn, VolumeOk;
    FormatMounts(f);
    HeaderReadsBack(f);
    var before := ReservedPart(f) + TablePart(f);
    var after := SectorPadding(|f.root|) + Joined(f.clusters);
    assert WriteImage(f) == before + f.root + after;
    CutMiddle(before, f.root, after);
  }

  lemma CutMiddle(before: seq<Byte>, part: seq<Byte>, after: seq<Byte>)
    ensures (before + part + after)[|before|..|before| + |part|] == part
  {
  }

  lemma {:induction false} JoinedPart(parts: seq<seq<Byte>>, size: nat, i: nat)
    requires AllOfSize(parts, size) && i < |parts|
    ensures 0 <= i * size <= i * size + size <= |Joined(parts)|
    ensures Joined(parts)[i * size..i * size + size] == parts[i]
    decreases |parts|
  {
    var init, last := parts[..|parts| - 1], parts[|parts| - 1];
    assert parts == init + [last];
    JoinedLength(init, size);
    if i == |parts| - 1 {
      CutMiddle(Joined(init), last, []);
      assert Joined(parts) == Joined(init) + last + [];
    } else {
      JoinedPart(init, size, i);
      SliceOfHead(Joined(init), last, i * size, i * size + size);
    }
  }

  lemma SliceOfHead(head: seq<Byte>, tail: seq<Byte>, i: nat, j: nat)
    requires i <= j <= |head|
    ensures (head + tail)[i..j] == head[i..j]
  {
  }

  /** Cluster number c of the driver is the written cluster number c - 2. */
  lemma ClusterReadsBack(f: Formatted, c: nat)
    requires FormatOk(f) && 2 <= c < |f.clusters| + 2 && c < FAT_ENTRIES
    ensures VolumeOk(VolumeIn(f)) && ClusterFits(VolumeIn(f), c)
    ensures ClusterBytes(VolumeIn(f), c) == f.clusters[c - 2]
  {
    hide ReservedPart, TablePart, RootPart, Joined, VolumeOf, VolumeIn, VolumeOk, EndingSector;
    FormatMounts(f);
    HeaderReadsBack(f);
    var v, size := VolumeIn(f), f.boot.sectorsPerCluster * SECTOR_SIZE;
    var head, data, at := ReservedPart(f) + TablePart(f) + RootPart(f), Joined(f.clusters), (c - 2) * size;
    JoinedPart(f.clusters, size, c - 2);
    ClusterPosLinear(v, c);
    assert ClusterPos(v, c) == |head| + at;
    assert WriteImage(f) == head + data;
    SliceOfTail(head, data, at, at + size);
  }

  lemma SliceOfTail(head: seq<Byte>, tail: seq<Byte>, i: nat, j: nat)
    requires i <= j <= |tail|
    ensures (head + tail)[|head| + i..|head| + j] == tail[i..j]
  {
  }

  // ------------------------------------------------------------------ chains

  /** The walk goes on exactly past the entries that are not free, reserved, bad or
      end-of-chain marks. */
  lemma DataLinkIff(entry: U16)
    ensures IsDataLink(entry) <==>
      !(entry == 0x0000 || 0xFFF0 <= entry <= 0xFFF6 || entry == 0xFFF7 || 0xFFF8 <= entry <= 0xFFFF)
  {
  }

  /** The table links these clusters one after another and then stops: at an
      end-of-chain mark, or at a free, reserved or bad entry. */
  predicate Links(table: seq<U16>, chain: seq<U16>) {
    && chain != []
    && (forall i | 0 <= i < |chain| :: 2 <= chain[i] <= 0xFFEF && chain[i] < |table|)
    && (forall i | 0 <= i < |chain| - 1 :: table[chain[i]] == chain[i + 1])
    && (table[chain[|chain| - 1]] == 0 || table[chain[|chain| - 1]] >= 0xFFF0)
  }

  /** The volume's allocation table is this one. */
  ghost predicate TableIs(v: Volume, table: seq<U16>) {
    VolumeOk(v) && forall c: U16 | c < |table| :: FatEntry(v, c) == table[c]
  }

  /** The volume's clusters from number 2 on are these. */
  ghost predicate ClustersAre(v: Volume, clusters: seq<seq<Byte>>) {
    && VolumeOk(v)
    && forall c: U16 | 2 <= c < |clusters| + 2 :: ClusterFits(v, c) && ClusterBytes(v, c) == clusters[c - 2]
  }

  /** The driver finds everything that was written. */
  lemma FormatReadsBack(f: Formatted)
    requires FormatOk(f)
    ensures MountOk(WriteImage(f)) && VolumeOk(VolumeIn(f)) && RootData(VolumeIn(f)) == f.root
    ensures TableIs(VolumeIn(f), f.table) && ClustersAre(VolumeIn(f), f.clusters)
  {
    hide FormatOk, VolumeOk, VolumeIn, FatEntry, ClusterFits, ClusterBytes;
    FormatMounts(f);
    RootReadsBack(f);
    forall c: U16 | c < |f.table| ensures FatEntry(VolumeIn(f), c) == f.table[c] {
      TableReadsBack(f, c);
    }
    forall c: U16 | 2 <= c < |f.clusters| + 2
      ensures ClusterFits(VolumeIn(f), c) && ClusterBytes(VolumeIn(f), c) == f.clusters[c - 2]
    {
      ClusterReadsBack(f, c);
    }
  }

  /** The driver's walk over a written chain visits its clusters in order, and then
      finds no further one. */
  lemma {:induction false} ChainReadsBack(v: Volume, table: seq<U16>, chain: seq<U16>, i: nat)
    requires TableIs(v, table) && Links(table, chain)
    ensures Nth(v, chain[0], i) == if i < |chain| then Some(chain[i]) else None
    decreases i
  {
    hide VolumeOk, FatEntry;
    if i > 0 {
      ChainReadsBack(v, table, chain, i - 1);
      if i <= |chain| {
        DataLinkIff(table[chain[i - 1]]);
      }
    }
  }

  predicate AllDistinct(chain: seq<U16>) {
    forall i, j | 0 <= i < j < |chain| :: chain[i] != chain[j]
  }

  /** A written chain of distinct clusters is acyclic. */
  lemma DistinctChainAcyclic(v: Volume, table: seq<U16>, chain: seq<U16>)
    requires TableIs(v, table) && Links(table, chain) && AllDistinct(chain)
    ensures Acyclic(v, chain[0])
  {
    hide VolumeOk, Nth;
    forall i: nat, j: nat | i < j && Nth(v, chain[0], j).Some? ensures Nth(v, chain[0], i) != Nth(v, chain[0], j) {
      ChainReadsBack(v, table, chain, i);
      ChainReadsBack(v, table, chain, j);
    }
  }

  /** The clusters of the chain are among those written. */
  predicate OnDisk(clusters: seq<seq<Byte>>, chain: seq<U16>) {
    forall i | 0 <= i < |chain| :: 2 <= chain[i] < |clusters| + 2
  }

  /** The written contents of these clusters, one after another. */
  function Contents(clusters: seq<seq<Byte>>, chain: seq<U16>): (bytes: seq<Byte>)
    requires OnDisk(clusters, chain)
    decreases |chain|
  {
    if chain == [] then []
    else
      var init, last := chain[..|chain| - 1], chain[|chain| - 1];
      Contents(clusters, init) + clusters[last - 2]
  }

  lemma ChainFits(v: Volume, table: seq<U16>, clusters: seq<seq<Byte>>, chain: seq<U16>, hi: nat)
    requires TableIs(v, table) && ClustersAre(v, clusters) && Links(table, chain) && OnDisk(clusters, chain)
    ensures ClustersFit(v, chain[0], 0, hi)
  {
    hide VolumeOk, Nth, ClusterFits, ClusterBytes, TableIs;
    TableVolume(v, table);
    forall n: nat | 0 <= n <= hi && Nth(v, chain[0], n).Some? ensures ClusterFits(v, Nth(v, chain[0], n).value) {
      ChainReadsBack(v, table, chain, n);
    }
  }

  lemma TableVolume(v: Volume, table: seq<U16>)
    requires TableIs(v, table)
    ensures VolumeOk(v)
  {
  }

  lemma {:induction false} ConcatIsContents(v: Volume, table: seq<U16>, clusters: seq<seq<Byte>>, chain: seq<U16>,
                                            n: nat)
    requires TableIs(v, table) && ClustersAre(v, clusters) && Links(table, chain) && OnDisk(clusters, chain)
    requires 0 < n <= |chain|
    ensures Nth(v, chain[0], n - 1).Some? && ClustersFit(v, chain[0], 0, n - 1)
    ensures Concat(v, chain[0], n) == Contents(clusters, chain[..n])
    decreases n
  {
    hide VolumeOk, Nth, ClusterFits, ClusterBytes, TableIs, ClustersFit;
    TableVolume(v, table);
    ChainReadsBack(v, table, chain, n - 1);
    ChainFits(v, table, clusters, chain, n - 1);
    assert chain[..n][..n - 1] == chain[..n - 1];
    if n > 1 {
      ConcatIsContents(v, table, clusters, chain, n - 1);
    }
  }

  /** The bytes the driver reads from a written chain are the written contents of
      its clusters. */
  lemma FileReadsBack(v: Volume, table: seq<U16>, clusters: seq<seq<Byte>>, chain: seq<U16>, offset: nat, n: nat)
    requires TableIs(v, table) && ClustersAre(v, clusters) && Links(table, chain) && OnDisk(clusters, chain)
    requires offset + n <= |chain| * ClusterSize(v)
    ensures ChainReadable(v, chain[0], offset, n) && offset + n <= |Contents(clusters, chain)|
    ensures ChainBytes(v, chain[0], offset, n) == Contents(clusters, chain)[offset..offset + n]
  {
    hide VolumeOk, Nth, TableIs, ClustersAre, ClustersFit, ChainReadable, ChainBytes, Concat, Contents;
    TableVolume(v, table);
    ConcatIsContents(v, table, clusters, chain, |chain|);
    ReadIsSliceOfConcat(v, chain[0], offset, n, |chain|);
    assert chain[..|chain|] == chain;
  }
}
