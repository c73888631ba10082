/** Reading and seeking an open file (src/fs/fat/fat16.c). */
module FatFile {
  import opened Machine
  import opened Streamer
  import opened FatVolume
  import opened FatChain
  import opened FatAcyclic
  import opened FatReader
  import opened FatNames
  import opened FatOpen
  import opened CursorModel

  /** The file's clusters lie in the image as far as its size goes. */
  ghost predicate FileOk(v: Volume, r: Record)
    requires VolumeOk(v)
  {
    && 0 <= FirstCluster(r) < FAT_ENTRIES
    && (FileSize(r) > 0 ==> ClustersFit(v, FirstCluster(r), 0, Quot(FileSize(r) - 1, ClusterSize(v))))
  }

  /** The chain of the file covers its size. */
  ghost predicate ChainCovers(v: Volume, r: Record)
    requires VolumeOk(v) && FileOk(v, r)
  {
    FileSize(r) > 0 ==> Reaches(v, FirstCluster(r), FileSize(r) - 1)
  }

  /** The bytes of a covered file. */
  ghost function Content(v: Volume, r: Record): (content: seq<Byte>)
    requires VolumeOk(v) && FileOk(v, r) && ChainCovers(v, r)
    ensures |content| == FileSize(r)
  {
    ChainBytes(v, FirstCluster(r), 0, FileSize(r))
  }

  predicate IsFile(desc: FileDescriptor?)
    reads desc
  {
    desc != null && desc.item.Some? && desc.item.value.FileItem?
  }

  lemma RangeFits(v: Volume, r: Record, offset: nat, n: nat)
    requires VolumeOk(v) && FileOk(v, r) && n > 0 && offset + n <= FileSize(r)
    ensures ClustersFit(v, FirstCluster(r), Quot(offset, ClusterSize(v)), Quot(offset + n - 1, ClusterSize(v)))
    ensures Reaches(v, FirstCluster(r), offset + n - 1) ==> ChainReadable(v, FirstCluster(r), offset, n)
  {
    QuotMonotone(offset + n - 1, FileSize(r) - 1, ClusterSize(v));
  }

  /** The buffer received n bytes of the file from pos on. */
  ghost predicate Delivered(v: Volume, r: Record, pos: nat, n: nat, before: seq<Byte>, after: seq<Byte>) {
    && VolumeOk(v) && FileOk(v, r) && ChainReadable(v, FirstCluster(r), pos, n) && n <= |before|
    && after == Splice(before, 0, ChainBytes(v, FirstCluster(r), pos, n))
  }

  /** The chain reaches the last of the n bytes from pos on. */
  ghost predicate CanRead(v: Volume, r: Record, pos: nat, n: nat) {
    VolumeOk(v) && FileOk(v, r) && (n > 0 ==> Reaches(v, FirstCluster(r), pos + n - 1))
  }

  /** The offsets a read of n bytes computes are C ints: those of its items are, and
      so is its end, or else the chain stops before it. */
  ghost predicate IntItems(v: Volume, r: Record, pos: nat, size: nat, n: nat) {
    n > 0 ==>
      && IsInt32(pos) && IsInt32(size) && VolumeOk(v) && FileOk(v, r)
      && (IsInt32(pos + n) || !Reaches(v, FirstCluster(r), INT32_MAX))
  }

  /** The loop of fat16_read: -EIO exactly when the chain does not reach the last
      byte of the last whole item. */
  method ReadItems(d: FatDisk, r: Record, pos: U32, size: U32, nmemb: U32, out: array<Byte>)
    returns (res: int, count: nat, offset: U32)
    requires d.Valid() && FileOk(d.vol, r) && pos <= FileSize(r) && size > 0
    requires ItemBytes(FileSize(r), pos, size, nmemb) <= out.Length
    requires IntItems(d.vol, r, pos, size, ItemBytes(FileSize(r), pos, size, nmemb))
    modifies d.clusterStream, d.fatStream, out
    ensures res == 0 <==> CanRead(d.vol, r, pos, ItemBytes(FileSize(r), pos, size, nmemb))
    ensures res == 0 || res == -EIO
    ensures res == 0 ==>
      && count == Items(FileSize(r), pos, size, nmemb)
      && offset == pos + ItemBytes(FileSize(r), pos, size, nmemb)
      && Delivered(d.vol, r, pos, offset - pos, old(out[..]), out[..])
  {
    hide VolumeOk, Items, ItemBytes, CanRead, Delivered, FileOk, Splice, Quot, IntItems, IntOffsets;
    ghost var length, goal := FileSize(r), ItemBytes(FileSize(r), pos, size, nmemb);
    res, count, offset := 0, 0, pos;
    NothingYet(d.vol, r, pos, out[..]);
    NoItemsYet(length, pos, size, nmemb);
    while count < nmemb
      invariant res == 0 && 0 <= count <= nmemb && pos <= offset
      invariant Prefix(length, pos, size, nmemb, count, offset)
      invariant offset - pos <= out.Length
      invariant CanRead(d.vol, r, pos, offset - pos)
      invariant Delivered(d.vol, r, pos, offset - pos, old(out[..]), out[..])
    {
      OneMoreItem(length, pos, size, nmemb, count, offset);
      if offset >= FileSize(r) || size > FileSize(r) - offset {
        break;
      }
      ItemFits(d.vol, r, pos, offset, size, goal);
      ghost var middle := out[..];
      res := d.ReadInternal(FirstCluster(r), offset, size, out, offset - pos);
      NextItem(d.vol, r, pos, offset, size, goal);
      if res < 0 {
        return;
      }
      DeliverMore(d.vol, r, pos, offset - pos, size, old(out[..]), middle, out[..]);
      offset := offset + size;
      count := count + 1;
    }
    AllItems(length, pos, size, nmemb, count, offset);
  }

  /** count items of this size have been passed, and offset is after them. */
  ghost predicate Prefix(length: nat, pos: nat, size: nat, nmemb: nat, count: nat, offset: nat) {
    && pos <= offset <= length && size > 0
    && count <= Items(length, pos, size, nmemb)
    && offset == pos + count * size
  }

  lemma NothingYet(v: Volume, r: Record, pos: nat, buffer: seq<Byte>)
    requires VolumeOk(v) && FileOk(v, r)
    ensures CanRead(v, r, pos, 0) && Delivered(v, r, pos, 0, buffer, buffer)
  {
  }

  lemma NoItemsYet(length: nat, pos: nat, size: nat, nmemb: nat)
    requires pos <= length && size > 0
    ensures Prefix(length, pos, size, nmemb, 0, pos)
  {
  }

  /** The loop goes on exactly while items are left. */
  lemma OneMoreItem(length: nat, pos: nat, size: nat, nmemb: nat, count: nat, offset: nat)
    requires Prefix(length, pos, size, nmemb, count, offset) && count < nmemb
    ensures offset >= length || size > length - offset <==> count == Items(length, pos, size, nmemb)
    ensures count < Items(length, pos, size, nmemb) ==>
      && Prefix(length, pos, size, nmemb, count + 1, offset + size)
      && offset + size <= pos + ItemBytes(length, pos, size, nmemb)
  {
    var k := Items(length, pos, size, nmemb);
    QuotMinus(length - pos, count, size);
    Distribute(count, 1, size);
    if count < k {
      ProductMonotone(count + 1, k, size);
    }
  }

  lemma AllItems(length: nat, pos: nat, size: nat, nmemb: nat, count: nat, offset: nat)
    requires Prefix(length, pos, size, nmemb, count, offset)
    requires count == nmemb || count == Items(length, pos, size, nmemb)
    ensures count == Items(length, pos, size, nmemb)
    ensures offset == pos + ItemBytes(length, pos, size, nmemb)
  {
  }

  lemma ItemFits(v: Volume, r: Record, pos: nat, offset: nat, size: nat, goal: nat)
    requires VolumeOk(v) && FileOk(v, r) && size > 0 && offset + size <= FileSize(r)
    requires pos <= offset && offset + size <= pos + goal
    requires IntItems(v, r, pos, size, goal) && CanRead(v, r, pos, offset - pos)
    ensures 0 <= FirstCluster(r) < FAT_ENTRIES && IntOffsets(v, FirstCluster(r), offset, size)
    ensures ClustersFit(v, FirstCluster(r), Quot(offset, ClusterSize(v)), Quot(offset + size - 1, ClusterSize(v)))
    ensures Reaches(v, FirstCluster(r), offset + size - 1) ==> ChainReadable(v, FirstCluster(r), offset, size)
  {
    hide Quot, ClustersFit, ChainReadable, Nth;
    RangeFits(v, r, offset, size);
    if offset > INT32_MAX {
      ReachesLess(v, FirstCluster(r), INT32_MAX, offset - 1);
    }
  }

  lemma NextItem(v: Volume, r: Record, pos: nat, offset: nat, size: nat, goal: nat)
    requires VolumeOk(v) && FileOk(v, r) && pos <= offset && size > 0 && offset + size <= pos + goal
    ensures Reaches(v, FirstCluster(r), offset + size - 1) ==> CanRead(v, r, pos, offset + size - pos)
    ensures !Reaches(v, FirstCluster(r), offset + size - 1) ==> !CanRead(v, r, pos, goal)
  {
    var cs := ClusterSize(v);
    QuotMonotone(offset + size - 1, pos + goal - 1, cs);
    if Reaches(v, FirstCluster(r), pos + goal - 1) {
      ChainIsPrefixClosed(v, FirstCluster(r), Quot(offset + size - 1, cs), Quot(pos + goal - 1, cs));
    }
  }

  /** One more item extends what has been delivered. */
  lemma DeliverMore(v: Volume, r: Record, pos: nat, n: nat, size: nat,
                    before: seq<Byte>, middle: seq<Byte>, after: seq<Byte>)
    requires Delivered(v, r, pos, n, before, middle) && size > 0 && n + size <= |before|
    requires pos + n + size <= FileSize(r) && ChainReadable(v, FirstCluster(r), pos + n, size)
    requires |middle| == |before| && after == Splice(middle, n, ChainBytes(v, FirstCluster(r), pos + n, size))
    ensures Delivered(v, r, pos, n + size, before, after)
  {
    hide Splice, ChainReadable, ChainBytes, Quot;
    if n == 0 {
      SpliceEmpty(before);
      assert ChainBytes(v, FirstCluster(r), pos, 0) == [];
    } else {
      WholeRange(v, r, pos, n, size);
      PiecesJoin(v, FirstCluster(r), pos, n, size, before, 0);
    }
  }

  lemma SpliceEmpty(buffer: seq<Byte>)
    ensures Splice(buffer, 0, []) == buffer
  {
  }

  lemma WholeRange(v: Volume, r: Record, pos: nat, a: nat, b: nat)
    requires VolumeOk(v) && FileOk(v, r) && a > 0 && b > 0 && pos + a + b <= FileSize(r)
    requires ChainReadable(v, FirstCluster(r), pos + a, b)
    ensures ChainReadable(v, FirstCluster(r), pos, a + b)
  {
    RangeFits(v, r, pos, a + b);
  }

  // ------------------------------------------------------------- operations

  /** The descriptor is an open file whose cursor is within the file. */
  ghost predicate OpenAt(v: Volume, desc: FileDescriptor, r: Record)
    reads desc
  {
    && VolumeOk(v) && FileOk(v, r)
    && desc.item.Some? && desc.item.value.FileItem? && desc.item.value.record == r
    && desc.pos <= FileSize(r)
  }

  /** What one call of read returns and does to the cursor and the buffer. */
  ghost predicate ReadResult(v: Volume, r: Record, pos: nat, size: nat, nmemb: nat, res: int, pos': nat,
                             before: seq<Byte>, after: seq<Byte>)
  {
    && VolumeOk(v) && FileOk(v, r) && pos <= FileSize(r) && size > 0
    && var n := ItemBytes(FileSize(r), pos, size, nmemb);
       if CanRead(v, r, pos, n) then
         res == Items(FileSize(r), pos, size, nmemb) && pos' == pos + n && Delivered(v, r, pos, n, before, after)
       else
         res == -EIO && pos' == pos
  }

  /** The caller's buffer has room for what is read, and offsets are C ints. */
  ghost predicate Fits(v: Volume, r: Record, pos: nat, size: nat, nmemb: nat, room: nat) {
    pos <= FileSize(r) && size > 0 ==>
      && ItemBytes(FileSize(r), pos, size, nmemb) <= room
      && IntItems(v, r, pos, size, ItemBytes(FileSize(r), pos, size, nmemb))
  }

  /** fat16_read: as many whole items as fit before the end of the file, or -EIO
      with the cursor unmoved exactly when the chain does not reach the last of
      their bytes. */
  method Read(d: FatDisk, desc: FileDescriptor?, size: U32, nmemb: U32, out: array?<Byte>, ghost r: Record)
    returns (res: int)
    requires d.Valid() && (IsFile(desc) ==> OpenAt(d.vol, desc, r))
    requires IsFile(desc) && out != null ==> Fits(d.vol, r, desc.pos, size, nmemb, out.Length)
    modifies d.clusterStream, d.fatStream, desc, out
    ensures desc != null ==> desc.item == old(desc.item)
    ensures size == 0 || nmemb == 0 ==> res == 0
    ensures size > 0 && nmemb > 0 && (!IsFile(desc) || out == null) ==> res == -EINVARG
    ensures size == 0 || nmemb == 0 || !IsFile(desc) || out == null ==>
      (desc != null ==> desc.pos == old(desc.pos)) && (out != null ==> out[..] == old(out[..]))
    ensures size > 0 && nmemb > 0 && IsFile(desc) && out != null ==>
      ReadResult(d.vol, r, old(desc.pos), size, nmemb, res, desc.pos, old(out[..]), out[..])
    ensures IsFile(desc) ==> OpenAt(d.vol, desc, r)
  {
    hide VolumeOk, FileOk, CanRead, Delivered, Items, ItemBytes;
    if size == 0 || nmemb == 0 {
      return 0;
    }
    if desc == null || desc.item.None? || !desc.item.value.FileItem? || out == null {
      return -EINVARG;
    }
    var count, offset;
    res, count, offset := ReadItems(d, desc.item.value.record, desc.pos, size, nmemb, out);
    if res < 0 {
      return;
    }
    desc.pos := offset;
    res := count;
  }

  /** fat16_seek. */
  method Seek(desc: FileDescriptor?, offset: U32, mode: nat) returns (res: int)
    modifies desc
    ensures desc != null ==> desc.item == old(desc.item)
    ensures !IsFile(desc) ==> res == -EINVARG && (desc != null ==> desc.pos == old(desc.pos))
    ensures IsFile(desc) && mode == 0 ==>
      var size := FileSize(desc.item.value.record);
      if offset <= size then res == 0 && desc.pos == offset else res == -EIO && desc.pos == old(desc.pos)
    ensures IsFile(desc) && mode == 1 ==>
      var size, target := FileSize(desc.item.value.record), old(desc.pos) + offset;
      if target <= size then res == 0 && desc.pos == target else res == -EIO && desc.pos == old(desc.pos)
    ensures IsFile(desc) && mode == 2 ==> res == -EUNIMP && desc.pos == old(desc.pos)
    ensures IsFile(desc) && mode > 2 ==> res == -EINVARG && desc.pos == old(desc.pos)
    ensures IsFile(desc) ==> (res, desc.pos) == SeekStep(FileSize(desc.item.value.record), old(desc.pos), offset, mode)
  {
    res := ALL_OK;
    if desc == null || desc.item.None? || !desc.item.value.FileItem? {
      return -EINVARG;
    }
    var filesize := FileSize(desc.item.value.record);
    var newPos: int := desc.pos;
    if mode == SEEK_SET {
      newPos := offset;
    } else if mode == SEEK_END {
      res := -EUNIMP;
    } else if mode == SEEK_CUR {
      if desc.pos > filesize || offset > filesize - desc.pos {
        return -EIO;
      }
      newPos := desc.pos + offset;
    } else {
      res := -EINVARG;
    }
    if res == ALL_OK {
      if newPos > filesize {
        return -EIO;
      }
      desc.pos := newPos;
    }
  }

  /** On a file whose chain covers its size every read delivers its content. */
  lemma CoveredRead(v: Volume, r: Record, pos: nat, n: nat)
    requires VolumeOk(v) && FileOk(v, r) && ChainCovers(v, r) && pos + n <= FileSize(r)
    ensures CanRead(v, r, pos, n) && ChainReadable(v, FirstCluster(r), pos, n)
    ensures ChainBytes(v, FirstCluster(r), pos, n) == Content(v, r)[pos..pos + n]
  {
    hide Quot;
    ChainBytesSlice(v, FirstCluster(r), 0, FileSize(r), pos, n);
  }

  /** One call on a covered file is one step of the cursor model. */
  method Perform(d: FatDisk, desc: FileDescriptor, op: Op, ghost r: Record) returns (s: Step)
    requires d.Valid() && OpenAt(d.vol, desc, r) && ChainCovers(d.vol, r) && IsInt32(FileSize(r))
    modifies d.clusterStream, d.fatStream, desc
    ensures OpenAt(d.vol, desc, r) && desc.item == old(desc.item)
    ensures s == Apply(Content(d.vol, r), old(desc.pos), op) && desc.pos == s.pos
  {
    match op {
      case Seek(offset, mode) =>
        var res := Seek(desc, offset, mode);
        s := Step(res, [], desc.pos);
      case Read(size, nmemb) =>
        s := PerformRead(d, desc, size, nmemb, r);
    }
  }

  method PerformRead(d: FatDisk, desc: FileDescriptor, size: U32, nmemb: U32, ghost r: Record) returns (s: Step)
    requires d.Valid() && OpenAt(d.vol, desc, r) && ChainCovers(d.vol, r) && IsInt32(FileSize(r))
    modifies d.clusterStream, d.fatStream, desc
    ensures OpenAt(d.vol, desc, r) && desc.item == old(desc.item)
    ensures s == Apply(Content(d.vol, r), old(desc.pos), Op.Read(size, nmemb)) && desc.pos == s.pos
  {
    hide VolumeOk, FileOk, Items, ItemBytes, ChainCovers, Quot, ReadResult, Content, Apply;
    var n := if size == 0 || nmemb == 0 then 0 else ItemBytes(FileSize(desc.item.value.record), desc.pos, size, nmemb);
    var out := new Byte[n](_ => 0);
    ghost var before, pos := out[..], desc.pos;
    if size > 0 {
      ItemBytesBounds(FileSize(r), pos, size, nmemb);
    }
    var res := Read(d, desc, size, nmemb, out, r);
    s := Step(res, out[..], desc.pos);
    if size == 0 || nmemb == 0 {
      NothingRead(Content(d.vol, r), pos, size, nmemb);
    } else {
      ReadIsStep(d.vol, r, pos, size, nmemb, res, desc.pos, before, out[..]);
    }
  }

  lemma NothingRead(content: seq<Byte>, pos: nat, size: U32, nmemb: U32)
    requires pos <= |content| && (size == 0 || nmemb == 0)
    ensures Apply(content, pos, Op.Read(size, nmemb)) == Step(0, [], pos)
  {
  }

  /** What a read of a covered file returns is a step of the cursor model. */
  lemma ReadIsStep(v: Volume, r: Record, pos: nat, size: U32, nmemb: U32, res: int, pos': nat,
                   before: seq<Byte>, after: seq<Byte>)
    requires VolumeOk(v) && FileOk(v, r) && ChainCovers(v, r) && pos <= FileSize(r) && size > 0 && nmemb > 0
    requires ReadResult(v, r, pos, size, nmemb, res, pos', before, after)
    requires |before| == ItemBytes(FileSize(r), pos, size, nmemb)
    ensures Step(res, after, pos') == Apply(Content(v, r), pos, Op.Read(size, nmemb))
  {
    hide VolumeOk, FileOk, Items, ItemBytes, ChainCovers, Content, ChainReadable, CanRead, Splice;
    var n := ItemBytes(FileSize(r), pos, size, nmemb);
    CoveredRead(v, r, pos, n);
    SpliceAll(before, Content(v, r)[pos..pos + n]);
  }

  lemma ItemBytesBounds(length: nat, pos: nat, size: nat, nmemb: nat)
    requires pos <= length && size > 0
    ensures nmemb == 0 ==> ItemBytes(length, pos, size, nmemb) == 0
    ensures ItemBytes(length, pos, size, nmemb) > 0 ==> size <= ItemBytes(length, pos, size, nmemb)
  {
    if Items(length, pos, size, nmemb) > 0 {
      ProductMonotone(1, Items(length, pos, size, nmemb), size);
    }
  }

  lemma SpliceAll(buffer: seq<Byte>, bytes: seq<Byte>)
    requires |bytes| == |buffer|
    ensures Splice(buffer, 0, bytes) == bytes
  {
  }

  /** The size of the file is a C int, or its chain is acyclic. */
  ghost predicate SizeOk(v: Volume, r: Record)
    requires VolumeOk(v) && FileOk(v, r)
  {
    IsInt32(FileSize(r)) || Acyclic(v, FirstCluster(r))
  }

  /** An acyclic chain inside the image covers no file of 2^31 bytes or more. */
  lemma CoveredSize(v: Volume, r: Record)
    requires VolumeOk(v) && FileOk(v, r) && ChainCovers(v, r) && SizeOk(v, r)
    ensures IsInt32(FileSize(r))
  {
    hide Quot, Acyclic, Nth;
    if !IsInt32(FileSize(r)) {
      QuotMonotone(|v.image|, FileSize(r) - 1, ClusterSize(v));
      ChainEnds(v, FirstCluster(r));
      ReachesLess(v, FirstCluster(r), |v.image|, FileSize(r) - 1);
    }
  }

  /** Any run of reads and seeks on a covered open file behaves as the byte array
      with a cursor does: same results, same bytes, same cursor. */
  method Session(d: FatDisk, desc: FileDescriptor, ops: seq<Op>, ghost r: Record) returns (log: seq<Step>)
    requires d.Valid() && OpenAt(d.vol, desc, r) && ChainCovers(d.vol, r) && SizeOk(d.vol, r)
    modifies d.clusterStream, d.fatStream, desc
    ensures OpenAt(d.vol, desc, r) && desc.item == old(desc.item)
    ensures (log, desc.pos) == Run(Content(d.vol, r), old(desc.pos), ops)
  {
    hide VolumeOk, FileOk, ChainCovers, Content, Apply, OpenAt;
    PosInContent(d.vol, desc, r);
    CoveredSize(d.vol, r);
    ghost var content, start := Content(d.vol, r), desc.pos;
    log := [];
    var i := 0;
    while i < |ops|
      invariant 0 <= i <= |ops| && OpenAt(d.vol, desc, r) && desc.item == old(desc.item)
      invariant (log, desc.pos) == Run(content, start, ops[..i])
    {
      PosInContent(d.vol, desc, r);
      var s := Perform(d, desc, ops[i], r);
      assert ops[..i + 1][..i] == ops[..i];
      log := log + [s];
      i := i + 1;
    }
    assert ops[..i] == ops;
  }

  lemma PosInContent(v: Volume, desc: FileDescriptor, r: Record)
    requires OpenAt(v, desc, r) && ChainCovers(v, r)
    ensures VolumeOk(v) && FileOk(v, r) && desc.pos <= |Content(v, r)| == FileSize(r)
  {
  }
}
