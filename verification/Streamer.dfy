/** Byte streams over one disk (src/disk/streamer.c). The disk is an immutable
    image; reading a sector always succeeds. */
module Streamer {
  import opened Machine

  type Image = seq<Byte>

  /** Whole sectors, addressable by a signed 32-bit byte position. */
  predicate ImageOk(image: Image) {
    |image| % SECTOR_SIZE == 0 && |image| < 0x8000_0000
  }

  /** disk_read_block for one sector. */
  method DiskReadBlock(image: Image, lba: nat, buf: array<Byte>) returns (res: int)
    requires (lba + 1) * SECTOR_SIZE <= |image| && buf.Length == SECTOR_SIZE
    modifies buf
    ensures res == 0 && buf[..] == image[lba * SECTOR_SIZE..(lba + 1) * SECTOR_SIZE]
  {
    var i := 0;
    while i < SECTOR_SIZE
      invariant 0 <= i <= SECTOR_SIZE
      invariant forall j | 0 <= j < i :: buf[j] == image[lba * SECTOR_SIZE + j]
    {
      buf[i] := image[lba * SECTOR_SIZE + i];
      i := i + 1;
    }
    return 0;
  }

  /** When one call of diskstreamer_read returns the right bytes: the stream
      stands at a sector boundary, or the request ends inside the sector. */
  predicate Aligned(pos: nat, total: nat) {
    pos % SECTOR_SIZE == 0 || pos % SECTOR_SIZE + total <= SECTOR_SIZE
  }

  /** The recursion never reads past its one-sector buffer. */
  predicate ReadsInsideBuffer(pos: nat, total: nat)
    decreases total
  {
    && pos % SECTOR_SIZE + (if total > SECTOR_SIZE then SECTOR_SIZE else total) <= SECTOR_SIZE
    && (total > SECTOR_SIZE ==> ReadsInsideBuffer(pos + SECTOR_SIZE, total - SECTOR_SIZE))
  }

  /** The alignment condition is exact. */
  lemma {:induction false} AlignedIsExact(pos: nat, total: nat)
    ensures Aligned(pos, total) <==> ReadsInsideBuffer(pos, total)
    decreases total
  {
    if total > SECTOR_SIZE {
      AlignedIsExact(pos + SECTOR_SIZE, total - SECTOR_SIZE);
    }
  }

  /** Overwrite part of a buffer. */
  function Splice(buffer: seq<Byte>, at: nat, bytes: seq<Byte>): (r: seq<Byte>)
    requires at + |bytes| <= |buffer|
    ensures |r| == |buffer|
  {
    buffer[..at] + bytes + buffer[at + |bytes|..]
  }

  /** Two adjacent splices are one. */
  lemma SpliceTwice(buffer: seq<Byte>, at: nat, a: seq<Byte>, b: seq<Byte>)
    requires at + |a| + |b| <= |buffer|
    ensures |Splice(buffer, at, a)| == |buffer|
    ensures Splice(Splice(buffer, at, a), at + |a|, b) == Splice(buffer, at, a + b)
  {
  }

  /** Bytes inside the sector of pos, cut from the loaded sector. */
  lemma SectorSlice(image: Image, pos: nat, n: nat)
    requires ImageOk(image) && pos < |image| && pos % SECTOR_SIZE + n <= SECTOR_SIZE
    ensures (pos / SECTOR_SIZE + 1) * SECTOR_SIZE <= |image|
    ensures var lba, offset := pos / SECTOR_SIZE, pos % SECTOR_SIZE;
      pos + n <= |image| &&
      image[lba * SECTOR_SIZE..(lba + 1) * SECTOR_SIZE][offset..offset + n] == image[pos..pos + n]
  {
    var lba, offset := pos / SECTOR_SIZE, pos % SECTOR_SIZE;
    var from, to := lba * SECTOR_SIZE, (lba + 1) * SECTOR_SIZE;
    assert pos == from + offset && to == from + SECTOR_SIZE;
    SectorInImage(|image|, lba, offset);
    SliceOfSlice(image, from, to, offset, offset + n);
  }

  /** An image of whole sectors that has a byte of a sector has all of it. */
  lemma SectorInImage(size: nat, lba: nat, offset: nat)
    requires size % SECTOR_SIZE == 0 && lba * SECTOR_SIZE + offset < size && offset < SECTOR_SIZE
    ensures (lba + 1) * SECTOR_SIZE <= size
  {
    var sectors := size / SECTOR_SIZE;
    assert size == sectors * SECTOR_SIZE;
    assert lba < sectors;
  }

  lemma FirstChunkFits(pos: nat, total: nat)
    requires Aligned(pos, total)
    ensures pos % SECTOR_SIZE + (if total > SECTOR_SIZE then SECTOR_SIZE else total) <= SECTOR_SIZE
  {
  }

  /** The rest of a read that starts at a sector boundary is again aligned. */
  lemma NextSectorAligned(pos: nat, total: nat)
    requires Aligned(pos, total) && total > SECTOR_SIZE
    ensures Aligned(pos + SECTOR_SIZE, total - SECTOR_SIZE)
  {
  }

  class DiskStream {
    const image: Image
    var pos: int

    constructor (image: Image)
      ensures this.image == image && pos == 0
    {
      this.image := image;
      pos := 0;
    }

    method Seek(pos: int) returns (res: int)
      modifies this
      ensures res == 0 && this.pos == pos
    {
      this.pos := pos;
      return 0;
    }

    /** diskstreamer_read: copy at most one sector of bytes and recurse for the
        rest. */
    method Read(out: array<Byte>, at: nat, total: nat) returns (res: int)
      requires ImageOk(image) && 0 <= pos < |image| && pos + total <= |image|
      requires Aligned(pos, total) && at + total <= out.Length
      modifies this, out
      ensures res == 0 && pos == old(pos) + total
      ensures out[..] == Splice(old(out[..]), at, image[old(pos)..old(pos) + total])
      decreases total
    {
      hide Splice, Aligned;
      ghost var before, start := out[..], pos;
      var n := if total > SECTOR_SIZE then SECTOR_SIZE else total;
      FirstChunkFits(pos, total);
      res := ReadChunk(out, at, n);
      if res < 0 {
        return;
      }
      if total > SECTOR_SIZE {
        NextSectorAligned(start, total);
        res := Read(out, at + SECTOR_SIZE, total - SECTOR_SIZE);
        var a, b := image[start..start + n], image[start + n..start + total];
        SpliceTwice(before, at, a, b);
        assert a + b == image[start..start + total];
      }
    }

    /** The body of one call: load the sector, copy out of it, advance. */
    method ReadChunk(out: array<Byte>, at: nat, n: nat) returns (res: int)
      requires ImageOk(image) && 0 <= pos < |image| && pos % SECTOR_SIZE + n <= SECTOR_SIZE && at + n <= out.Length
      modifies this, out
      ensures res == 0 && pos == old(pos) + n <= |image|
      ensures out[..] == Splice(old(out[..]), at, image[old(pos)..old(pos) + n])
    {
      hide Splice;
      var sector, offset := pos / SECTOR_SIZE, pos % SECTOR_SIZE;
      SectorSlice(image, pos, n);
      var buf := new Byte[SECTOR_SIZE];
      res := DiskReadBlock(image, sector, buf);
      if res < 0 {
        return;
      }
      assert buf[offset..offset + n] == buf[..][offset..offset + n] == image[pos..pos + n];
      CopyOut(buf, offset, out, at, n);
      pos := pos + n;
    }
  }

  /** The byte copy loop of diskstreamer_read. */
  method CopyOut(buf: array<Byte>, offset: nat, out: array<Byte>, at: nat, n: nat)
    requires offset + n <= buf.Length && at + n <= out.Length && buf != out
    modifies out
    ensures out[..] == Splice(old(out[..]), at, buf[offset..offset + n])
  {
    var i := 0;
    while i < n
      invariant 0 <= i <= n
      invariant forall j | 0 <= j < out.Length ::
        out[j] == if at <= j < at + i then buf[offset + (j - at)] else old(out[j])
    {
      out[at + i] := buf[offset + i];
      i := i + 1;
    }
    assert out[..] == Splice(old(out[..]), at, buf[offset..offset + n]);
  }
}
