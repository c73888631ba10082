/** Reading a cluster chain through the disk streams (src/fs/fat/fat16.c): table
    lookup, chain walk, sector split, and the recursion over clusters. */
module FatReader {
  import opened Machine
  import opened Streamer
  import opened FatVolume
  import opened FatChain

  /** The mounted disk: its image, and the three streams of the driver. */
  class FatDisk {
    const vol: Volume
    const clusterStream: DiskStream
    const fatStream: DiskStream
    const directoryStream: DiskStream

    constructor (vol: Volume, clusterStream: DiskStream, fatStream: DiskStream, directoryStream: DiskStream)
      requires VolumeOk(vol)
      requires clusterStream.image == fatStream.image == directoryStream.image == vol.image
      requires clusterStream != fatStream && clusterStream != directoryStream && fatStream != directoryStream
      ensures Valid() && this.vol == vol
      ensures this.clusterStream == clusterStream && this.fatStream == fatStream
      ensures this.directoryStream == directoryStream
    {
      this.vol := vol;
      this.clusterStream := clusterStream;
      this.fatStream := fatStream;
      this.directoryStream := directoryStream;
    }

    ghost predicate Valid() {
      && VolumeOk(vol)
      && clusterStream.image == fatStream.image == directoryStream.image == vol.image
      && clusterStream != fatStream && clusterStream != directoryStream && fatStream != directoryStream
    }

    /** fat16_get_fat_entry. */
    method GetFatEntry(cluster: U16) returns (res: int)
      requires Valid()
      modifies fatStream
      ensures res == FatEntry(vol, cluster)
    {
      FatReadAligned(vol, cluster);
      var pos := vol.header.reservedSectors * SECTOR_SIZE + cluster * FAT_ENTRY_SIZE;
      assert IsInt32(pos);
      res := fatStream.Seek(pos);
      if res < 0 {
        return;
      }
      var result := new Byte[2];
      res := fatStream.Read(result, 0, 2);
      if res < 0 {
        return;
      }
      assert result[..] == vol.image[pos..pos + 2];
      assert result[0] == result[..][0] && result[1] == result[..][1];
      res := Le16(result[..], 0);
    }

    /** fat16_get_cluster_for_offset: follow one link per cluster before the
        offset; a link that is not a data link ends the walk with -EIO. */
    method GetClusterForOffset(start: U16, offset: nat) returns (res: int)
      requires Valid()
      modifies fatStream
      ensures match Nth(vol, start, Quot(offset, ClusterSize(vol)))
              case Some(cluster) => res == cluster
              case None => res == -EIO
    {
      hide VolumeOk, FatEntry;
      VolumeImageOk(vol);
      QuotIsDivision(offset, ClusterSize(vol));
      var ahead := offset / (vol.header.sectorsPerCluster * SECTOR_SIZE);
      var cluster: U16 := start;
      var i := 0;
      while i < ahead
        invariant 0 <= i <= ahead
        invariant Nth(vol, start, i) == Some(cluster)
      {
        var entry := GetFatEntry(cluster);
        if entry < 0 {
          return entry;
        }
        if entry == UNUSED || entry == BAD_SECTOR || (entry >= RESERVED_FROM && entry < END_OF_CHAIN) ||
           entry >= END_OF_CHAIN {
          BrokenChain(vol, start, i + 1, ahead);
          return -EIO;
        }
        cluster := entry;
        i := i + 1;
      }
      return cluster;
    }

    /** fat16_stream_read: one seek and one read per sector touched. */
    method StreamRead(stream: DiskStream, pos: nat, total: nat, out: array<Byte>, at: nat) returns (res: int)
      requires Valid() && stream.image == vol.image
      requires pos + total <= |vol.image| && at + total <= out.Length
      modifies stream, out
      ensures res == 0
      ensures out[..] == Splice(old(out[..]), at, vol.image[pos..pos + total])
    {
      hide Splice, VolumeOk;
      VolumeImageOk(vol);
      res := 0;
      var done := 0;
      SpliceNothing(out[..], at, vol.image, pos);
      while done < total
        invariant 0 <= done <= total && res == 0
        invariant out[..] == Splice(old(out[..]), at, vol.image[pos..pos + done])
      {
        var current := pos + done;
        assert IsInt32(current);
        var sectorOffset := current % SECTOR_SIZE;
        var leftInSector := SECTOR_SIZE - sectorOffset;
        var left := total - done;
        var n := if left > leftInSector then leftInSector else left;
        res := stream.Seek(current);
        if res != 0 {
          return;
        }
        res := stream.Read(out, at + done, n);
        if res != 0 {
          return;
        }
        SpliceExtends(old(out[..]), at, vol.image, pos, done, n);
        done := done + n;
      }
    }

    /** fat16_read_internal_from_stream: zero exactly when every link up to the
        cluster of the last byte is a data link, and then `out` receives the
        requested range of the chain. */
    method ReadFromStream(stream: DiskStream, cluster: U16, offset: nat, total: nat, out: array<Byte>, at: nat)
      returns (res: int)
      requires Valid() && stream.image == vol.image && stream != fatStream
      requires total > 0 && at + total <= out.Length && IntOffsets(vol, cluster, offset, total)
      requires ClustersFit(vol, cluster, Quot(offset, ClusterSize(vol)), Quot(offset + total - 1, ClusterSize(vol)))
      modifies stream, fatStream, out
      ensures res == 0 <==> Reaches(vol, cluster, offset + total - 1)
      ensures res == 0 || res == -EIO
      ensures res == 0 ==> out[..] == Splice(old(out[..]), at, ChainBytes(vol, cluster, offset, total))
      ensures forall j | 0 <= j < out.Length && !(at <= j < at + total) :: out[j] == old(out[j])
      decreases total
    {
      hide Splice, VolumeOk, Nth, ChainBytes, ClustersFit, Reaches, ChainReadable, Quot, Rem, ClusterSector,
           IntOffsets;
      VolumeImageOk(vol);
      QuotIsDivision(offset, ClusterSize(vol));
      var size := vol.header.sectorsPerCluster * SECTOR_SIZE;
      var clusterToUse := GetClusterForOffset(cluster, offset);
      if clusterToUse < 0 {
        BrokenBefore(vol, cluster, offset, total);
        return clusterToUse;
      }
      var fromCluster := offset % size;
      var startingPos := ClusterSector(vol, clusterToUse) * SECTOR_SIZE + fromCluster;
      var left := size - fromCluster;
      var n := if total > left then left else total;
      FirstPiece(vol, cluster, offset, total, n, clusterToUse);
      assert IsInt32(startingPos);
      ghost var before := out[..];
      res := StreamRead(stream, startingPos, n, out, at);
      if res != 0 {
        return;
      }
      SpliceFrame(before, at, ChainBytes(vol, cluster, offset, n));
      if total - n > 0 {
        RestOffsets(vol, cluster, offset, total, n);
        res := ReadFromStream(stream, cluster, offset + n, total - n, out, at + n);
        if res == 0 {
          PiecesJoin(vol, cluster, offset, n, total - n, before, at);
        }
      }
    }

    /** fat16_read_internal. */
    method ReadInternal(cluster: U16, offset: nat, total: nat, out: array<Byte>, at: nat) returns (res: int)
      requires Valid()
      requires total > 0 && at + total <= out.Length && IntOffsets(vol, cluster, offset, total)
      requires ClustersFit(vol, cluster, Quot(offset, ClusterSize(vol)), Quot(offset + total - 1, ClusterSize(vol)))
      modifies clusterStream, fatStream, out
      ensures res == 0 <==> Reaches(vol, cluster, offset + total - 1)
      ensures res == 0 || res == -EIO
      ensures res == 0 ==> out[..] == Splice(old(out[..]), at, ChainBytes(vol, cluster, offset, total))
      ensures forall j | 0 <= j < out.Length && !(at <= j < at + total) :: out[j] == old(out[j])
    {
      res := ReadFromStream(clusterStream, cluster, offset, total, out, at);
    }
  }

  /** The offsets a read computes are C ints: its arguments are, and so is its end,
      or else the chain stops before it. */
  predicate IntOffsets(v: Volume, start: U16, offset: nat, total: nat)
    requires VolumeOk(v)
  {
    IsInt32(offset) && IsInt32(total) && (IsInt32(offset + total) || !Reaches(v, start, INT32_MAX))
  }

  lemma RestOffsets(v: Volume, start: U16, offset: nat, total: nat, n: nat)
    requires VolumeOk(v) && 0 < n < total && IntOffsets(v, start, offset, total) && ChainReadable(v, start, offset, n)
    ensures IntOffsets(v, start, offset + n, total - n)
  {
    hide Quot, Nth;
    if offset + n > INT32_MAX {
      ReachesLess(v, start, INT32_MAX, offset + n - 1);
    }
  }

  lemma ReachesLess(v: Volume, start: U16, i: nat, j: nat)
    requires VolumeOk(v) && i <= j && Reaches(v, start, j)
    ensures Reaches(v, start, i)
  {
    QuotMonotone(i, j, ClusterSize(v));
    ChainIsPrefixClosed(v, start, Quot(i, ClusterSize(v)), Quot(j, ClusterSize(v)));
  }

  /** A chain that breaks before the offset does not reach the last byte. */
  lemma BrokenBefore(v: Volume, start: U16, offset: nat, total: nat)
    requires VolumeOk(v) && total > 0 && Nth(v, start, Quot(offset, ClusterSize(v))).None?
    ensures !Reaches(v, start, offset + total - 1)
  {
    QuotMonotone(offset, offset + total - 1, ClusterSize(v));
    BrokenChain(v, start, Quot(offset, ClusterSize(v)), Quot(offset + total - 1, ClusterSize(v)));
  }

  /** The part of a read that lies in the cluster of its first byte. */
  lemma FirstPiece(v: Volume, start: U16, offset: nat, total: nat, n: nat, cluster: int)
    requires VolumeOk(v) && total > 0
    requires Nth(v, start, Quot(offset, ClusterSize(v))) == Some(cluster)
    requires ClustersFit(v, start, Quot(offset, ClusterSize(v)), Quot(offset + total - 1, ClusterSize(v)))
    requires var left := ClusterSize(v) - Rem(offset, ClusterSize(v)); n == if total > left then left else total
    ensures 0 < n <= total
    ensures ChainReadable(v, start, offset, n)
    ensures var p := ClusterPos(v, cluster) + Rem(offset, ClusterSize(v));
      0 <= p && p + n <= |v.image| && v.image[p..p + n] == ChainBytes(v, start, offset, n)
    ensures n == total ==> Reaches(v, start, offset + total - 1)
    ensures n < total ==>
      ClustersFit(v, start, Quot(offset + n, ClusterSize(v)), Quot(offset + total - 1, ClusterSize(v)))
    ensures ChainReadable(v, start, offset, total) <==> Reaches(v, start, offset + total - 1)
  {
    hide Nth, Quot, Rem, ChainBytes, VolumeOk, ClusterPos;
    VolumeImageOk(v);
    var cs := ClusterSize(v);
    QuotStep(offset, n - 1, cs);
    QuotMonotone(offset, offset + total - 1, cs);
    WithinOneCluster(v, start, offset, n);
    if n < total {
      QuotMonotone(offset, offset + n, cs);
    }
  }

  /** Reading two adjacent pieces is reading their union. */
  lemma PiecesJoin(v: Volume, start: U16, offset: nat, a: nat, b: nat, buffer: seq<Byte>, at: nat)
    requires VolumeOk(v) && a > 0 && b > 0 && ChainReadable(v, start, offset, a + b)
    requires at + a + b <= |buffer|
    ensures ChainReadable(v, start, offset, a) && ChainReadable(v, start, offset + a, b)
    ensures |Splice(buffer, at, ChainBytes(v, start, offset, a))| == |buffer|
    ensures Splice(Splice(buffer, at, ChainBytes(v, start, offset, a)), at + a, ChainBytes(v, start, offset + a, b))
         == Splice(buffer, at, ChainBytes(v, start, offset, a + b))
  {
    hide Splice, ChainReadable, Reaches;
    ChainBytesSplit(v, start, offset, a, b);
    SpliceTwice(buffer, at, ChainBytes(v, start, offset, a), ChainBytes(v, start, offset + a, b));
  }

  lemma SpliceFrame(buffer: seq<Byte>, at: nat, bytes: seq<Byte>)
    requires at + |bytes| <= |buffer|
    ensures |Splice(buffer, at, bytes)| == |buffer|
    ensures forall j | 0 <= j < |buffer| && !(at <= j < at + |bytes|) :: Splice(buffer, at, bytes)[j] == buffer[j]
  {
  }

  /** A table entry never straddles a sector boundary. */
  lemma FatReadAligned(v: Volume, cluster: U16)
    requires VolumeOk(v)
    ensures Aligned(FatPos(v, cluster), FAT_ENTRY_SIZE)
    ensures FatPos(v, cluster) + FAT_ENTRY_SIZE <= |v.image|
  {
    var q, r := cluster / 256, cluster % 256;
    assert cluster == 256 * q + r;
    var sector, pos := v.header.reservedSectors + q, FatPos(v, cluster);
    assert pos == sector * SECTOR_SIZE + 2 * r;
    DivModUnique(pos, SECTOR_SIZE, sector, 2 * r);
    assert pos + FAT_ENTRY_SIZE <= FatPos(v, FAT_ENTRIES);
  }

  lemma BrokenChain(v: Volume, start: U16, m: nat, n: nat)
    requires VolumeOk(v) && m <= n && Nth(v, start, m).None?
    ensures Nth(v, start, n).None?
  {
    if Nth(v, start, n).Some? {
      ChainIsPrefixClosed(v, start, m, n);
    }
  }

  lemma SpliceNothing(buffer: seq<Byte>, at: nat, image: Image, pos: nat)
    requires at <= |buffer| && pos <= |image|
    ensures buffer == Splice(buffer, at, image[pos..pos + 0])
  {
  }

  lemma SpliceExtends(buffer: seq<Byte>, at: nat, image: Image, pos: nat, done: nat, n: nat)
    requires at + done + n <= |buffer| && pos + done + n <= |image|
    ensures |Splice(buffer, at, image[pos..pos + done])| == |buffer|
    ensures Splice(Splice(buffer, at, image[pos..pos + done]), at + done, image[pos + done..pos + done + n])
         == Splice(buffer, at, image[pos..pos + (done + n)])
  {
    SpliceTwice(buffer, at, image[pos..pos + done], image[pos + done..pos + done + n]);
    assert image[pos..pos + done] + image[pos + done..pos + done + n] == image[pos..pos + (done + n)];
  }
}
