/** A concrete image and path on which the lookup loop dereferences a null pointer
    (src/fs/fat/fat16.c): the condition of LookupMeaning is not empty. */
module FatNullExample {
  import opened Machine
  import opened HeapRuns
  import opened HeapOps
  import opened CStrings
  import opened Streamer
  import opened FatVolume
  import opened FatNames
  import opened FatDirectory
  import opened FatItems
  import opened FatPaths
  import opened FatMount

  const SECTORS := 259
  const ROOT_POS := 131584
  const CLUSTER_POS := 132096

  /** A live subdirectory record named D that starts at cluster 2. */
  function SubD(): Record {
    [68] + Spaces(10) + [0x10] + Zeros(14) + [2, 0] + Zeros(4)
  }

  /** A signed boot sector, an empty table of 256 sectors, a root directory of one
      sector that holds the record D, and a single data cluster, number 2. */
  function ImageByte(i: nat): Byte {
    if i == 13 || i == 14 || i == 16 then 1 // one sector a cluster, one reserved, one table
    else if i == 17 then 16 // root directory entries
    else if i == 23 then 1 // 256 sectors a table
    else if i == 38 then FAT16_SIGNATURE
    else if ROOT_POS <= i < ROOT_POS + RECORD_SIZE then SubD()[i - ROOT_POS]
    else 0
  }

  function ExampleImage(): (image: Image)
    ensures |image| == SECTORS * SECTOR_SIZE
    ensures forall i | 0 <= i < |image| :: image[i] == ImageByte(i)
  {
    seq(SECTORS * SECTOR_SIZE, i requires i >= 0 => ImageByte(i))
  }

  function Example(): Volume {
    VolumeOf(ExampleImage())
  }

  function ExampleRoot(): Node
    requires VolumeOk(Example())
  {
    var data := RootData(Example());
    DirNode(data, RecordsBeforeBlank(data, Example().header.rootDirEntries, 0))
  }

  const D: CString := [68]
  const X: CString := [88]

  lemma HeaderIs()
    ensures Example().header == Header(1, 1, 1, 16, 256) && Example().image == ExampleImage()
    ensures Signature(ExampleImage()[..HEADER_BYTES]) == FAT16_SIGNATURE
  {
    hide ExampleImage, SubD;
    var bytes := ExampleImage()[..HEADER_BYTES];
    assert bytes[13] == 1 && bytes[14] == 1 && bytes[15] == 0 && bytes[16] == 1;
    assert bytes[17] == 16 && bytes[18] == 0 && bytes[22] == 0 && bytes[23] == 1 && bytes[38] == FAT16_SIGNATURE;
  }

  lemma ExampleIsOk()
    ensures VolumeOk(Example()) && MountOk(ExampleImage())
    ensures ClusterSize(Example()) == SECTOR_SIZE && ClusterPos(Example(), 2) == CLUSTER_POS
    ensures RootPos(Example().header) == ROOT_POS
  {
    hide ExampleImage, VolumeOf, ImageByte;
    HeaderIs();
  }

  /** The chain of cluster 2 is that cluster alone. */
  lemma {:induction false} OneClusterChain(n: nat)
    ensures VolumeOk(Example())
    ensures Nth(Example(), 2, n) == if n == 0 then Some(2) else None
  {
    hide ExampleImage, VolumeOk, VolumeOf, SubD;
    ExampleIsOk();
    HeaderIs();
    if n > 0 {
      OneClusterChain(n - 1);
      assert FatPos(Example(), 2) == 516;
      assert ExampleImage()[516] == 0 && ExampleImage()[517] == 0;
    }
  }

  lemma OnlyClusterFits()
    ensures VolumeOk(Example()) && AllFit(Example(), 2)
  {
    hide ExampleImage, VolumeOf, VolumeOk, Nth;
    ExampleIsOk();
    HeaderIs();
    forall n: nat | Nth(Example(), 2, n).Some? ensures ClusterFits(Example(), Nth(Example(), 2, n).value) {
      OneClusterChain(n);
    }
  }

  lemma FirstRecordBlank()
    ensures VolumeOk(Example()) && AllFit(Example(), 2) && HasRecord(Example(), 2, 0)
    ensures IsBlank(RecordAt(Example(), 2, 0))
  {
    hide ExampleImage, VolumeOf, VolumeOk, ClusterPos, AllFit, Nth, SubD;
    var v := Example();
    ExampleIsOk();
    HeaderIs();
    OnlyClusterFits();
    OneClusterChain(0);
    assert HasRecord(v, 2, 0);
    AllFitRange(v, 2, 0, RECORD_SIZE);
    ChainByteReadable(v, 2, 0, RECORD_SIZE, 0);
    assert BytePos(v, 2, 0) == CLUSTER_POS;
    assert ExampleImage()[CLUSTER_POS] == 0;
  }

  /** D is an empty directory. */
  lemma EmptyDirectory()
    ensures VolumeOk(Example()) && DirectoryOk(Example(), 2) && SubdirTotal(Example(), 2) == Some(0)
  {
    hide ExampleImage, VolumeOf, VolumeOk, AllFit, HasRecord;
    var v := Example();
    FirstRecordBlank();
    assert Stops(v, 2, 0) && FirstStop(v, 2, 0);
    FirstStopUnique(v, 2, 0, StopIndex(v, 2));
  }

  lemma SubDBytes()
    ensures var r := SubD();
      r[0] == 68 && r[11] == 0x10 && r[20] == 0 && r[21] == 0 && r[26] == 2 && r[27] == 0
    ensures BaseField(SubD()) == [68] + Spaces(7) && ExtField(SubD()) == Spaces(3)
  {
  }

  lemma SubDFields()
    ensures IsSubdirectory(SubD()) && IsLive(SubD()) && FirstCluster(SubD()) == 2 && FullName(SubD()) == D
  {
    hide SubD, FirstCluster;
    var r := SubD();
    SubDBytes();
    FirstClusterIsLowWord(r);
    assert BaseField(r)[1..] == Spaces(7);
    assert BitAnd(0x10, 0x10) == 16 && BitAnd(0x10, 8) == 0;
  }

  /** The root directory on the image holds D and nothing else. */
  lemma RootHoldsD()
    ensures VolumeOk(Example()) && ExampleRoot().total == 1
    ensures NodeOk(ExampleRoot()) && Rec(ExampleRoot().data, 0) == SubD()
  {
    hide ExampleImage, VolumeOf, VolumeOk, SubD;
    ExampleIsOk();
    HeaderIs();
    SubDBytes();
    var data := RootData(Example());
    assert |data| == 512;
    forall i | 0 <= i < RECORD_SIZE ensures Rec(data, 0)[i] == SubD()[i] {
      assert data[i] == ExampleImage()[ROOT_POS + i];
    }
    assert Rec(data, 0) == SubD();
    assert Rec(data, 1)[0] == data[32] == ExampleImage()[ROOT_POS + 32] == 0;
    assert RecordsBeforeBlank(data, 16, 1) == 1;
  }

  lemma SelectsD()
    ensures VolumeOk(Example()) && NodeOk(ExampleRoot())
    ensures Selected(ExampleRoot(), D) == Some(SubD())
  {
    hide ExampleRoot, VolumeOk, SubD, IsLive, FullName, Selected, NodeOk, Example;
    RootHoldsD();
    SubDFields();
    RootIsDirectory();
    FirstRecordSelected(ExampleRoot(), SubD(), D);
  }

  lemma FirstRecordSelected(node: Node, r: Record, name: CString)
    requires NodeOk(node) && node.DirNode? && node.total >= 1 && Rec(node.data, 0) == r
    requires IsLive(r) && FullName(r) == name
    ensures Selected(node, name) == Some(r)
  {
    hide IsLive, FullName;
    assert Matches(node.data, 0, name);
  }

  lemma OpensD()
    ensures VolumeOk(Example()) && RecordOk(Example(), SubD())
    ensures OpenRecord(Example(), SubD()) == Some(DirNode([], 0)) && Need(Example(), SubD()) == 2
  {
    hide Example, VolumeOk, SubD, DirectoryOk, FirstCluster, IsSubdirectory, RecordOk, OpenRecord, Need, SubdirTotal;
    SubDFields();
    EmptyDirectory();
    OpensEmpty(Example(), SubD(), 2);
  }

  lemma OpensEmpty(v: Volume, r: Record, start: U16)
    requires VolumeOk(v) && IsSubdirectory(r) && FirstCluster(r) == start && DirectoryOk(v, start)
    requires SubdirTotal(v, start) == Some(0)
    ensures RecordOk(v, r) && OpenRecord(v, r) == Some(DirNode([], 0)) && Need(v, r) == 2
  {
    hide VolumeOk, DirectoryOk, IsSubdirectory, FirstCluster, SubdirTotal, ChainBytes, ChainReadable;
    DirectoryRecord(v, r);
    NoBytes(v, start);
  }

  /** Looking up D/X/X on this image dereferences null, on every heap that can open
      D: X is neither the first nor the last component and does not resolve. */
  lemma MiddleComponentMissing(live: Live, total: nat)
    requires RunsOk(live, total) && RoomOf(live, total) >= 2
    ensures MountOk(ExampleImage()) && Signature(ExampleImage()[..HEADER_BYTES]) == FAT16_SIGNATURE
    ensures VolumeOk(Example()) && WalkOk(Example(), ExampleRoot(), [D, X, X])
    ensures MissingAt(Example(), ExampleRoot(), [D, X, X]) == Some(1)
    ensures Dereferences(Lookup(Example(), live, total, ExampleRoot(), [D, X, X]), 3)
  {
    hide RunsOk, RoomOf, Example, ExampleRoot, ExampleImage, VolumeOk, RecordOk, OpenRecord, Need, SubD, Lookup,
         Signature, MountOk;
    ExampleIsOk();
    var v, root, names := Example(), ExampleRoot(), [D, X, X];
    HeaderIs();
    SelectsD();
    OpensD();
    RootIsDirectory();
    assert names[1..] == [X, X];
    EmptyWalk(v, [X, X]);
    LookupMeaning(v, live, total, root, names);
  }

  lemma RootIsDirectory()
    ensures VolumeOk(Example()) && ExampleRoot().DirNode?
  {
    ExampleIsOk();
  }

  /** In an empty directory nothing resolves. */
  lemma EmptyWalk(v: Volume, names: seq<CString>)
    requires VolumeOk(v) && names != []
    ensures WalkOk(v, DirNode([], 0), names)
    ensures MissingAt(v, DirNode([], 0), names) == Some(0) && WalkNeed(v, DirNode([], 0), names) == 0
  {
    hide VolumeOk, RecordOk, OpenRecord;
  }
}
