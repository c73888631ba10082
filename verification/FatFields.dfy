/** The on-disk structures written out field by field, and that the driver reads
    every field back (src/fs/fat/fat16.c; Microsoft, "FAT: General Overview of
    On-Disk Format", version 1.03, "Boot Sector and BPB" and "FAT Directory
    Structure"). */
module FatFields {
  import opened Machine
  import opened CStrings
  import opened FatVolume
  import opened FatGeometry
  import opened FatNames
  import opened FatMount

  /** Little-endian words, lowest byte first. */
  function Word16(n: U16): (bytes: seq<Byte>)
    ensures |bytes| == 2
  {
    [n % 0x100, n / 0x100]
  }

  function Word32(n: U32): (bytes: seq<Byte>)
    ensures |bytes| == 4
  {
    Word16(n % 0x1_0000) + Word16(n / 0x1_0000)
  }

  lemma Le16UndoesWord16(before: seq<Byte>, n: U16, after: seq<Byte>)
    ensures Le16(before + Word16(n) + after, |before|) == n
  {
    var s := before + Word16(n) + after;
    assert s[|before|] == n % 0x100 && s[|before| + 1] == n / 0x100;
  }

  lemma Le32UndoesWord32(before: seq<Byte>, n: U32, after: seq<Byte>)
    ensures Le32(before + Word32(n) + after, |before|) == n
  {
    var s := before + Word32(n) + after;
    var low, high := n % 0x1_0000, n / 0x1_0000;
    assert s == before + Word16(low) + (Word16(high) + after);
    assert s == (before + Word16(low)) + Word16(high) + after;
    Le16UndoesWord16(before, low, Word16(high) + after);
    Le16UndoesWord16(before + Word16(low), high, after);
    assert Le32(s, |before|) == Le16(s, |before|) + 0x1_0000 * Le16(s, |before| + 2);
  }

  // ------------------------------------------------------------- boot sector

  type Bytes3 = s: seq<Byte> | |s| == 3 witness [0, 0, 0]
  type Bytes8 = s: seq<Byte> | |s| == 8 witness seq(8, _ => 0)
  type Bytes11 = s: seq<Byte> | |s| == 11 witness seq(11, _ => 0)

  /** struct fat_header, then struct fat_header_extended. */
  datatype BootSector = BootSector(
    jump: Bytes3,
    oem: Bytes8,
    bytesPerSector: U16,
    sectorsPerCluster: Byte,
    reservedSectors: U16,
    fatCopies: Byte,
    rootDirEntries: U16,
    numberOfSectors: U16,
    mediaType: Byte,
    sectorsPerFat: U16,
    sectorsPerTrack: U16,
    numberOfHeads: U16,
    hiddenSectors: U32,
    sectorsBig: U32,
    driveNumber: Byte,
    winNtBit: Byte,
    signature: Byte,
    volumeId: U32,
    volumeIdString: Bytes11,
    systemIdString: Bytes8)

  function BootStart(b: BootSector): (bytes: seq<Byte>)
    ensures |bytes| == 13
  {
    b.jump + b.oem + Word16(b.bytesPerSector)
  }

  function BootGeometry(b: BootSector): (bytes: seq<Byte>)
    ensures |bytes| == 11
  {
    [b.sectorsPerCluster] + Word16(b.reservedSectors) + [b.fatCopies] + Word16(b.rootDirEntries) +
    Word16(b.numberOfSectors) + [b.mediaType] + Word16(b.sectorsPerFat)
  }

  function BootDrive(b: BootSector): (bytes: seq<Byte>)
    ensures |bytes| == 14
  {
    Word16(b.sectorsPerTrack) + Word16(b.numberOfHeads) + Word32(b.hiddenSectors) + Word32(b.sectorsBig) +
    [b.driveNumber] + [b.winNtBit]
  }

  function BootExtended(b: BootSector): (bytes: seq<Byte>)
    ensures |bytes| == 24
  {
    [b.signature] + Word32(b.volumeId) + b.volumeIdString + b.systemIdString
  }

  /** The fields in order, each in its width. */
  function WriteBoot(b: BootSector): (bytes: seq<Byte>)
    ensures |bytes| == HEADER_BYTES
  {
    BootStart(b) + BootGeometry(b) + BootDrive(b) + BootExtended(b)
  }

  lemma GeometryFields(b: BootSector)
    ensures var g := BootGeometry(b);
      && g[0] == b.sectorsPerCluster && Le16(g, 1) == b.reservedSectors && g[3] == b.fatCopies
      && Le16(g, 4) == b.rootDirEntries && Le16(g, 9) == b.sectorsPerFat
  {
  }

  /** A part of the bytes reads as it does on its own. */
  lemma PartReads(before: seq<Byte>, part: seq<Byte>, after: seq<Byte>, i: nat)
    requires i < |part|
    ensures (before + part + after)[|before| + i] == part[i]
    ensures i + 2 <= |part| ==> Le16(before + part + after, |before| + i) == Le16(part, i)
    ensures i + 4 <= |part| ==> Le32(before + part + after, |before| + i) == Le32(part, i)
  {
  }

  /** Parsing a written boot sector gives back the geometry and the signature. */
  lemma ParseUndoesWrite(b: BootSector)
    ensures ParseHeader(WriteBoot(b)) ==
      Header(b.sectorsPerCluster, b.reservedSectors, b.fatCopies, b.rootDirEntries, b.sectorsPerFat)
    ensures Signature(WriteBoot(b)) == b.signature
  {
    hide BootStart, BootGeometry, BootDrive, BootExtended, Le16;
    var start, g, rest := BootStart(b), BootGeometry(b), BootDrive(b) + BootExtended(b);
    assert WriteBoot(b) == start + g + rest;
    GeometryFields(b);
    PartReads(start, g, rest, 0);
    PartReads(start, g, rest, 1);
    PartReads(start, g, rest, 3);
    PartReads(start, g, rest, 4);
    PartReads(start, g, rest, 9);
    SignatureIsFirst(b);
    assert WriteBoot(b) == (start + g + BootDrive(b)) + BootExtended(b) + [];
    PartReads(start + g + BootDrive(b), BootExtended(b), [], 0);
  }

  lemma SignatureIsFirst(b: BootSector)
    ensures BootExtended(b)[0] == b.signature
  {
  }

  /** The boot sector of src/boot/boot.asm. */
  const SHIPPED_BOOT := BootSector(
    [0xEB, 0x3C, 0x90], Ascii("SAMOS   "), 0x200, 0x80, 200, 0x02, 0x40, 0x00, 0xF8, 0x100, 0x20, 0x40, 0x00, 0x773594,
    0x80, 0x00, 0x29, 0xD105, Ascii("SAMOS BOOT "), Ascii("FAT16   "))

  /** Its bytes parse to the shipped geometry, with the signature. */
  lemma ShippedBootParses()
    ensures ParseHeader(WriteBoot(SHIPPED_BOOT)) == SHIPPED_HEADER && Signature(WriteBoot(SHIPPED_BOOT)) == 0x29
  {
    hide WriteBoot, ParseHeader, Signature;
    ParseUndoesWrite(SHIPPED_BOOT);
  }

  // --------------------------------------------------------- directory record

  /** struct fat_directory_item. */
  datatype RecordFields = RecordFields(
    filename: Bytes8,
    ext: Bytes3,
    attribute: Byte,
    reserved: Byte,
    creationTens: Byte,
    creationTime: U16,
    creationDate: U16,
    lastAccess: U16,
    highCluster: U16,
    lastModTime: U16,
    lastModDate: U16,
    lowCluster: U16,
    filesize: U32)

  function RecordStart(f: RecordFields): (bytes: seq<Byte>)
    ensures |bytes| == 20
  {
    f.filename + f.ext + [f.attribute] + [f.reserved] + [f.creationTens] +
    Word16(f.creationTime) + Word16(f.creationDate) + Word16(f.lastAccess)
  }

  function RecordEnd(f: RecordFields): (bytes: seq<Byte>)
    ensures |bytes| == 12
  {
    Word16(f.highCluster) + Word16(f.lastModTime) + Word16(f.lastModDate) + Word16(f.lowCluster) + Word32(f.filesize)
  }

  /** The fields in order, each in its width. */
  function WriteRecord(f: RecordFields): (r: Record) {
    RecordStart(f) + RecordEnd(f)
  }

  lemma StartFields(f: RecordFields)
    ensures var s := RecordStart(f);
      s[..8] == f.filename && s[8..11] == f.ext && s[0] == f.filename[0] && s[11] == f.attribute
  {
  }

  lemma EndFields(f: RecordFields)
    ensures var e := RecordEnd(f);
      Le16(e, 0) == f.highCluster && Le16(e, 6) == f.lowCluster && Le32(e, 8) == f.filesize
  {
    var words := Word16(f.highCluster) + Word16(f.lastModTime) + Word16(f.lastModDate) + Word16(f.lowCluster);
    assert RecordEnd(f) == words + Word32(f.filesize) + [];
    Le32UndoesWord32(words, f.filesize, []);
  }

  /** Every field the driver uses reads back from a written record. */
  lemma RecordReadsBack(f: RecordFields)
    ensures var r := WriteRecord(f);
      && BaseField(r) == f.filename && ExtField(r) == f.ext && Attribute(r) == f.attribute
      && FirstCluster(r) == ToInt32(0x1_0000 * f.highCluster + f.lowCluster)
      && FileSize(r) == f.filesize
      && (IsBlank(r) <==> f.filename[0] == 0x00)
  {
    hide RecordStart, RecordEnd, Le16, Le32, BitOr;
    var r, s, e := WriteRecord(f), RecordStart(f), RecordEnd(f);
    StartFields(f);
    EndFields(f);
    assert r == s + e + [];
    assert r[..8] == s[..8] && r[8..11] == s[8..11];
    PartReads(s, e, [], 0);
    PartReads(s, e, [], 6);
    PartReads(s, e, [], 8);
    OrHighLow(f.highCluster, f.lowCluster);
  }

  lemma OrHighLow(high: U16, low: U16)
    ensures BitOr(high * 0x1_0000, low) == 0x1_0000 * high + low
  {
    hide BitOr;
    assert Pow2(4) == 16 && Pow2(8) == 256 && Pow2(12) == 4096 && Pow2(16) == 65536;
    OrLowBits(high * 0x1_0000, 0, low, 16);
    OrZero(low);
  }

  // ------------------------------------------------------------ attribute bits

  lemma AndOne(x: nat)
    ensures BitAnd(x, 1) == x % 2
  {
    if x > 0 {
      assert BitAnd(x, 1) == x % 2 + 2 * BitAnd(x / 2, 0);
      AndZero(x / 2);
    }
  }

  lemma {:induction false} AndZero(x: nat)
    ensures BitAnd(x, 0) == 0
  {
    if x > 0 {
      AndZero(x / 2);
    }
  }

  lemma AndEight(x: nat)
    ensures BitAnd(x, 8) == 8 * (x / 8 % 2)
    ensures BitAnd(x, 16) == 16 * (x / 16 % 2)
  {
    hide BitAnd;
    AndEven(x, 8);
    AndEven(x, 4);
    AndEven(x / 2, 4);
    AndEven(x / 2, 2);
    AndEven(x / 4, 2);
    AndEven(x / 4, 1);
    AndEven(x / 8, 1);
    AndOne(x / 8);
    AndOne(x / 16);
    assert x / 2 / 2 == x / 4 && x / 4 / 2 == x / 8 && x / 8 / 2 == x / 16;
  }

  /** Lookup skips a record exactly when it is deleted, part of a long name or a
      volume label, and loads it as a directory exactly when bit 4 is set. */
  lemma RecordKinds(f: RecordFields)
    ensures IsLive(WriteRecord(f)) <==>
      f.filename[0] != 0xE5 && f.attribute != 0x0F && f.attribute / 8 % 2 == 0
    ensures IsSubdirectory(WriteRecord(f)) <==> f.attribute / 16 % 2 == 1
  {
    hide WriteRecord, BitAnd, FirstCluster, FileSize;
    RecordReadsBack(f);
    AndEight(f.attribute);
    assert WriteRecord(f)[0] == BaseField(WriteRecord(f))[0];
  }
}
