/** From a volume written out part after part to the bytes a client reads: names in
    any case, the file's chain, and everything the driver does in between
    (src/fs/fat/fat16.c, src/fs/pparser.c). */
module FormattedFile {
  import opened Machine
  import opened HeapRuns
  import opened HeapOps
  import opened KernelHeap
  import opened CStrings
  import opened PathSpec
  import opened FatVolume
  import opened FatNames
  import opened FatDirectory
  import opened FatItems
  import opened FatPaths
  import opened FatAcyclic
  import opened FatTree
  import opened FatLookup
  import opened FatMount
  import opened FatFields
  import opened FatFormat
  import opened FatFile
  import opened CursorModel
  import opened FileSystem

  // --------------------------------------------------------------- directory

  function WriteRecords(rs: seq<RecordFields>): (bytes: seq<Byte>)
    ensures |bytes| == RECORD_SIZE * |rs|
  {
    if rs == [] then [] else WriteRecords(rs[..|rs| - 1]) + WriteRecord(rs[|rs| - 1])
  }

  /** A root directory of this many entries that starts with these records. */
  function RootOf(rs: seq<RecordFields>, entries: nat): (bytes: seq<Byte>)
    requires |rs| <= entries
    ensures |bytes| == RECORD_SIZE * entries
  {
    WriteRecords(rs) + Zeros(RECORD_SIZE * (entries - |rs|))
  }

  lemma {:induction false} RecordsReadBack(rs: seq<RecordFields>, rest: seq<Byte>, i: nat)
    requires i < |rs|
    ensures Rec(WriteRecords(rs) + rest, i) == WriteRecord(rs[i])
    decreases |rs|
  {
    hide WriteRecord;
    var init, last := rs[..|rs| - 1], WriteRecord(rs[|rs| - 1]);
    assert WriteRecords(rs) + rest == WriteRecords(init) + (last + rest);
    if i < |rs| - 1 {
      RecordsReadBack(init, last + rest, i);
    } else {
      CutMiddle(WriteRecords(init), last, rest);
      assert WriteRecords(init) + last + rest == WriteRecords(init) + (last + rest);
    }
  }

  predicate NoneBlank(rs: seq<RecordFields>) {
    forall i | 0 <= i < |rs| :: rs[i].filename[0] != 0
  }

  /** The driver counts exactly the written records. */
  lemma {:induction false} RecordsCounted(rs: seq<RecordFields>, entries: nat, from: nat)
    requires from <= |rs| <= entries && NoneBlank(rs)
    ensures RecordsBeforeBlank(RootOf(rs, entries), entries, from) == |rs|
    decreases |rs| - from
  {
    hide WriteRecord, WriteRecords, RootOf, IsBlank;
    var data := RootOf(rs, entries);
    if from < |rs| {
      RootRecords(rs, entries, from);
      RecordReadsBack(rs[from]);
      RecordsCounted(rs, entries, from + 1);
    } else if from < entries {
      ZerosAreBlank(rs, entries);
    }
  }

  lemma RootRecords(rs: seq<RecordFields>, entries: nat, i: nat)
    requires i < |rs| <= entries
    ensures Rec(RootOf(rs, entries), i) == WriteRecord(rs[i])
  {
    hide WriteRecord, WriteRecords;
    RecordsReadBack(rs, Zeros(RECORD_SIZE * (entries - |rs|)), i);
  }

  lemma ZerosAreBlank(rs: seq<RecordFields>, entries: nat)
    requires |rs| < entries
    ensures IsBlank(Rec(RootOf(rs, entries), |rs|))
  {
    hide WriteRecords;
  }

  // -------------------------------------------------------------------- names

  /** The parts of an 8.3 name: no padding or terminator inside. */
  predicate IsShortName(base: seq<Byte>, ext: seq<Byte>) {
    && 1 <= |base| <= 8 && |ext| <= 3
    && (forall i | 0 <= i < |base| :: base[i] != 0 && base[i] != 0x20)
    && (forall i | 0 <= i < |ext| :: ext[i] != 0 && ext[i] != 0x20)
  }

  /** The name as it is written in a path. */
  function ShortName(base: seq<Byte>, ext: seq<Byte>): seq<Byte> {
    if ext == [] then base else base + Ascii(".") + ext
  }

  /** The record carries the name in upper case, padded with spaces. */
  predicate CarriesName(f: RecordFields, base: seq<Byte>, ext: seq<Byte>)
    requires IsShortName(base, ext)
  {
    && f.filename == Upper(base) + seq(8 - |base|, _ => 0x20)
    && f.ext == Upper(ext) + seq(3 - |ext|, _ => 0x20)
  }

  lemma PaddedUpper(s: seq<Byte>, n: nat)
    requires |s| <= n && forall i | 0 <= i < |s| :: s[i] != 0 && s[i] != 0x20
    ensures Trim(Upper(s) + seq(n - |s|, _ => 0x20)) == Upper(s)
  {
    hide Trim;
    TrimUndoesPad(Upper(s), n);
    assert Pad(Upper(s), n) == Upper(s) + seq(n - |s|, _ => 0x20);
  }

  lemma WrittenName(f: RecordFields, base: seq<Byte>, ext: seq<Byte>)
    requires IsShortName(base, ext) && CarriesName(f, base, ext)
    ensures FullName(WriteRecord(f)) == ShortName(Upper(base), Upper(ext))
  {
    hide Trim, WriteRecord, Upper, BaseField, ExtField, FullName, ShortName;
    RecordReadsBack(f);
    PaddedUpper(base, 8);
    PaddedUpper(ext, 3);
    NameOfParts(WriteRecord(f), Upper(base), Upper(ext));
  }

  lemma NameOfParts(r: Record, base: seq<Byte>, ext: seq<Byte>)
    requires Trim(BaseField(r)) == base && Trim(ExtField(r)) == ext
    ensures FullName(r) == ShortName(base, ext)
  {
    hide Trim, BaseField, ExtField;
    assert Ascii(".") == [DOT];
  }

  lemma UpperOfParts(base: seq<Byte>, ext: seq<Byte>)
    ensures SameFold(ShortName(Upper(base), Upper(ext)), ShortName(base, ext))
  {
    var u, l := ShortName(Upper(base), Upper(ext)), ShortName(base, ext);
    assert |u| == |l|;
    if ext == [] {
      UpperIsSame(base);
    } else {
      forall i | 0 <= i < |u| ensures ToLower(u[i]) == ToLower(l[i]) {
        UpperIsSame(base);
        UpperIsSame(ext);
        if i < |base| {
          assert u[i] == Upper(base)[i] && l[i] == base[i];
        } else if i > |base| {
          assert u[i] == Upper(ext)[i - |base| - 1] && l[i] == ext[i - |base| - 1];
        }
      }
    }
  }

  /** A record written in upper case answers to its name in any case, and to no
      other name. */
  lemma FoundInAnyCase(f: RecordFields, base: seq<Byte>, ext: seq<Byte>, name: CString)
    requires IsShortName(base, ext) && CarriesName(f, base, ext)
    ensures Answers(WriteRecord(f), name) <==> Upper(name) == Upper(ShortName(base, ext))
  {
    hide WriteRecord, SameFold, FullName, ShortName, Upper;
    WrittenName(f, base, ext);
    UpperOfParts(base, ext);
    var u, l := ShortName(Upper(base), Upper(ext)), ShortName(base, ext);
    SameFoldIff(l, name);
    SameFoldIsEquivalence(u, l, name);
    SameFoldIsEquivalence(l, u, name);
  }

  // ------------------------------------------------------------ the whole path

  /** The k-th record is the first that lookup finds under this name. */
  ghost predicate FirstFound(rs: seq<RecordFields>, k: nat, name: CString) {
    && k < |rs| && IsLive(WriteRecord(rs[k])) && Answers(WriteRecord(rs[k]), name)
    && forall i | 0 <= i < k :: !(IsLive(WriteRecord(rs[i])) && Answers(WriteRecord(rs[i]), name))
  }

  /** A volume whose root directory holds these records, no directory among them, the
      k-th a file stored on this chain. */
  ghost predicate StoresFile(f: Formatted, rs: seq<RecordFields>, k: nat, chain: seq<U16>) {
    && FormatOk(f) && |rs| <= f.boot.rootDirEntries && f.root == RootOf(rs, f.boot.rootDirEntries)
    && NoneBlank(rs) && (forall i | 0 <= i < |rs| :: rs[i].attribute / 16 % 2 == 0)
    && k < |rs| && Links(f.table, chain) && AllDistinct(chain) && OnDisk(f.clusters, chain)
    && rs[k].highCluster == 0 && rs[k].lowCluster == chain[0]
    && rs[k].filesize <= |chain| * (f.boot.sectorsPerCluster * SECTOR_SIZE)
  }

  lemma NoDirectories(v: Volume, rs: seq<RecordFields>, entries: nat, i: nat)
    requires VolumeOk(v) && i < |rs| <= entries && rs[i].attribute / 16 % 2 == 0
    ensures var r := Rec(RootOf(rs, entries), i);
      r == WriteRecord(rs[i]) && RecordOk(v, r) && OpenRecord(v, r) == Some(FileNode(r)) && Need(v, r) == 2
  {
    hide RootOf, WriteRecord, VolumeOk, FirstCluster, SubdirTotal;
    RootRecords(rs, entries, i);
    RecordKinds(rs[i]);
  }

  /** The driver's view of the written root directory. */
  lemma WrittenRoot(f: Formatted, rs: seq<RecordFields>, k: nat, chain: seq<U16>)
    requires StoresFile(f, rs, k, chain)
    ensures MountOk(WriteImage(f)) && VolumeOk(VolumeIn(f)) && |WriteImage(f)| >= HEADER_BYTES
    ensures VolumeOf(WriteImage(f)) == VolumeIn(f) && VolumeIn(f).header.rootDirEntries == f.boot.rootDirEntries
    ensures ImageRoot(WriteImage(f)) == DirNode(RootOf(rs, f.boot.rootDirEntries), |rs|)
    ensures ClusterSize(VolumeIn(f)) == f.boot.sectorsPerCluster * SECTOR_SIZE
    ensures Signature(WriteImage(f)[..HEADER_BYTES]) == FAT16_SIGNATURE
  {
    hide VolumeOk, WriteImage, RootOf, RecordsBeforeBlank, RootData, VolumeOf, Signature, Links;
    FormatReadsBack(f);
    HeaderReadsBack(f);
    VolumeInIs(f);
    RecordsCounted(rs, f.boot.rootDirEntries, 0);
  }

  lemma VolumeInIs(f: Formatted)
    requires FormatOk(f) && |WriteImage(f)| >= HEADER_BYTES
    ensures VolumeIn(f) == VolumeOf(WriteImage(f))
  {
  }

  lemma FlatRootIsSound(v: Volume, rs: seq<RecordFields>, entries: nat, depth: nat)
    requires VolumeOk(v) && |rs| <= entries && forall i | 0 <= i < |rs| :: rs[i].attribute / 16 % 2 == 0
    ensures SoundTo(v, DirNode(RootOf(rs, entries), |rs|), depth)
  {
    hide RootOf, VolumeOk, OpenRecord, RecordOk, IsLive;
    var node := DirNode(RootOf(rs, entries), |rs|);
    if depth > 0 {
      forall i: nat | RECORD_SIZE * (i + 1) <= |node.data| && i < node.total && IsLive(Rec(node.data, i))
        ensures SoundBelow(v, Rec(node.data, i), depth - 1)
      {
        NoDirectories(v, rs, entries, i);
        RootRecords(rs, entries, i);
        RecordKinds(rs[i]);
      }
    }
  }

  /** Lookup selects the first record that is found. */
  lemma WrittenSelected(rs: seq<RecordFields>, entries: nat, k: nat, name: CString)
    requires |rs| <= entries && FirstFound(rs, k, name)
    ensures NodeOk(DirNode(RootOf(rs, entries), |rs|))
    ensures Selected(DirNode(RootOf(rs, entries), |rs|), name) == Some(WriteRecord(rs[k]))
  {
    hide RootOf, WriteRecord, IsLive, Answers;
    var data := RootOf(rs, entries);
    forall i: nat | i <= k ensures Matches(data, i, name) <==> i == k {
      RootRecords(rs, entries, i);
    }
    FirstMatchIs(data, |rs|, name, k, 0);
    RootRecords(rs, entries, k);
  }

  lemma WrittenMeaning(v: Volume, rs: seq<RecordFields>, entries: nat, k: nat, name: CString)
    requires VolumeOk(v) && |rs| <= entries && FirstFound(rs, k, name) && rs[k].attribute / 16 % 2 == 0
    ensures var node := DirNode(RootOf(rs, entries), |rs|);
      && WalkOk(v, node, [name]) && WalkNeed(v, node, [name]) == 2
      && PathMeans(v, node, [name]) == Some(FileNode(WriteRecord(rs[k])))
  {
    hide RootOf, WriteRecord, VolumeOk, OpenRecord, RecordOk, Need, Selected, NodeOk;
    WrittenSelected(rs, entries, k, name);
    NoDirectories(v, rs, entries, k);
    RootRecords(rs, entries, k);
    FileNodeOk(WriteRecord(rs[k]));
    assert [name][1..] == [];
  }

  lemma FileNodeOk(r: Record)
    ensures NodeOk(FileNode(r))
  {
  }

  /** A record that names a written chain is a file in scope, and its content is what
      was written. */
  lemma StoredContent(v: Volume, table: seq<U16>, clusters: seq<seq<Byte>>, chain: seq<U16>, r: Record)
    requires TableIs(v, table) && ClustersAre(v, clusters) && Links(table, chain) && OnDisk(clusters, chain)
    requires AllDistinct(chain) && FirstCluster(r) == chain[0] && FileSize(r) <= |chain| * ClusterSize(v)
    ensures FileOk(v, r) && ChainCovers(v, r) && SizeOk(v, r)
    ensures FileSize(r) <= |Contents(clusters, chain)|
    ensures Content(v, r) == Contents(clusters, chain)[..FileSize(r)]
  {
    hide VolumeOk, FirstCluster, FileSize, Links, AllDistinct, OnDisk, Contents, Acyclic, Nth, Quot,
         ChainBytes, TableIs,
         ClustersAre, ClustersFit;
    var n := FileSize(r);
    TableVolume(v, table);
    NonemptyChain(table, chain);
    FileReadsBack(v, table, clusters, chain, 0, n);
    DistinctChainAcyclic(v, table, chain);
    if n > 0 {
      ChainFits(v, table, clusters, chain, Quot(n - 1, ClusterSize(v)));
    }
  }

  lemma NonemptyChain(table: seq<U16>, chain: seq<U16>)
    requires Links(table, chain)
    ensures chain != []
  {
  }

  /** The k-th record's file is in scope, and its content is what was written. */
  lemma WrittenContent(f: Formatted, rs: seq<RecordFields>, k: nat, chain: seq<U16>)
    requires StoresFile(f, rs, k, chain)
    ensures VolumeOk(VolumeIn(f))
    ensures var v, r := VolumeIn(f), WriteRecord(rs[k]);
      && FileOk(v, r) && ChainCovers(v, r) && SizeOk(v, r)
      && rs[k].filesize <= |Contents(f.clusters, chain)|
      && Content(v, r) == Contents(f.clusters, chain)[..rs[k].filesize]
  {
    hide VolumeOk, WriteImage, RootOf, FirstCluster, FileSize, WriteRecord, VolumeIn, Links, AllDistinct,
         OnDisk, Contents,
         TableIs, ClustersAre, FileOk, ChainCovers, SizeOk, Content, ImageRoot, Signature, FormatOk,
         ClusterSize, NoneBlank;
    WrittenRoot(f, rs, k, chain);
    FormatReadsBack(f);
    RecordReadsBack(rs[k]);
    NonemptyChain(f.table, chain);
    StoredContent(VolumeIn(f), f.table, f.clusters, chain, WriteRecord(rs[k]));
  }

  /** A written volume holds its file under every path that names it, in any case,
      and the bytes of the file are those written to the clusters of its chain. */
  lemma WrittenFileIsHeld(f: Formatted, rs: seq<RecordFields>, k: nat, chain: seq<U16>, drive: nat, name: Component)
    requires StoresFile(f, rs, k, chain) && FirstFound(rs, k, name)
    requires drive < 10 && |Print(drive, [name])| <= MAX_PATH
    ensures ImageHolds(WriteImage(f), Print(drive, [name]), WriteRecord(rs[k]))
    ensures VolumeOk(VolumeOf(WriteImage(f)))
    ensures RoomFor(VolumeOf(WriteImage(f)), ImageRoot(WriteImage(f)), Print(drive, [name])) == 6
  {
    hide VolumeOk, WriteImage, RootOf, WriteRecord, VolumeIn, Links, FileOk, ChainCovers, SizeOk, Content,
         FormatOk, Print,
         Accepted, PartsFit, Components, WalkOk, WalkNeed, PathMeans, FirstFound, ImageRoot, MountOk,
         Signature, VolumeOf;
    var image, path, v, entries := WriteImage(f), Print(drive, [name]), VolumeIn(f), f.boot.rootDirEntries;
    WrittenRoot(f, rs, k, chain);
    WrittenContent(f, rs, k, chain);
    WrittenMeaning(v, rs, entries, k, name);
    ParseUndoesPrint(drive, [name]);
    RealisticPartsFit(path);
    assert |path| >= 3 by {
      AcceptedPeak(path);
    }
    forall depth: nat ensures SoundTo(v, ImageRoot(image), depth) {
      FlatRootIsSound(v, rs, entries, depth);
    }
    PathOfOne(v, ImageRoot(image), path, name);
  }

  lemma PathOfOne(v: Volume, root: Node, path: CString, name: Component)
    requires Accepted(path) && PartsFit(path) && VolumeOk(v) && WalkOk(v, root, [name])
    requires Components(path[3..]) == [name] && WalkNeed(v, root, [name]) == 2
    ensures RoomFor(v, root, path) == 6
  {
    hide WalkOk, WalkNeed, Accepted, PartsFit, Components, VolumeOk;
    AcceptedPeak(path);
    assert NamesOf(path) == [name];
  }

  /** Mount a written volume, open a file on it by name, make any sequence of reads
      and seeks, and close it: every call returns what a byte array holding the
      written bytes of the file would. */
  method ReadWritten(k: Kheap, f: Formatted, path: CString, ops: seq<Op>, ghost rs: seq<RecordFields>, ghost i: nat,
                     ghost chain: seq<U16>, ghost drive: nat, ghost name: Component)
    returns (m: Mount, log: seq<Step>)
    requires k.Valid() && StoresFile(f, rs, i, chain) && FirstFound(rs, i, name)
    requires drive < 10 && path == Print(drive, [name]) && |path| <= MAX_PATH
    requires k.Room() >= 11 + BlocksFor(RECORD_SIZE * f.boot.rootDirEntries)
    modifies k.heap, k.heap.entries, k.words
    ensures k.Valid() && fresh(m) && Mounted(k.heap.saddr, old(k.heap.live), k.heap.live, m)
    ensures rs[i].filesize <= |Contents(f.clusters, chain)|
    ensures log == Run(Contents(f.clusters, chain)[..rs[i].filesize], 0, ops).0
  {
    hide VolumeOk, WriteImage, RootOf, WriteRecord, VolumeIn, FormatOk, Links, Print, FirstFound, Contents, Mounted,
         MountsImage, ImageHolds, RoomFor, Run, LongestFree, RunsOk, ImageRoot;
    ghost var r := WriteRecord(rs[i]);
    WrittenFileIsHeld(f, rs, i, chain, drive, name);
    WrittenContent(f, rs, i, chain);
    WrittenRoot(f, rs, i, chain);
    m, log := MountAndRead(k, WriteImage(f), path, ops, r);
  }

  /** "hello.txt". */
  const HELLO: Component := [104, 101, 108, 108, 111, 46, 116, 120, 116]

  lemma HelloText()
    ensures HELLO == Ascii("hello.txt")
  {
  }

  lemma UpperHelloText()
    ensures Ascii("HELLO   ") == [72, 69, 76, 76, 79, 32, 32, 32] && Ascii("TXT") == [84, 88, 84]
  {
  }

  lemma UpperHello()
    ensures Upper(HELLO[..5]) == [72, 69, 76, 76, 79] && Upper(HELLO[6..]) == [84, 88, 84]
  {
  }

  lemma HelloParts()
    ensures IsShortName(HELLO[..5], HELLO[6..]) && ShortName(HELLO[..5], HELLO[6..]) == HELLO
  {
    assert Ascii(".") == [46];
  }

  /** The path the kernel opens is printed from that name. */
  lemma HelloPath()
    ensures Print(0, [HELLO]) == Ascii("0:/hello.txt")
  {
    assert Join([HELLO]) == HELLO;
  }

  /** The name finds the record that carries it in upper case. */
  lemma HelloIsFound(f: RecordFields)
    requires f.filename == Ascii("HELLO   ") && f.ext == Ascii("TXT")
    ensures HELLO == Ascii("hello.txt") && Answers(WriteRecord(f), HELLO)
  {
    hide Answers, WriteRecord, Ascii, Upper, ShortName, IsShortName;
    HelloText();
    UpperHelloText();
    UpperHello();
    HelloParts();
    assert f.filename == Upper(HELLO[..5]) + seq(3, _ => 0x20);
    assert f.ext == Upper(HELLO[6..]) + seq(0, _ => 0x20);
    FoundInAnyCase(f, HELLO[..5], HELLO[6..], HELLO);
  }
}
