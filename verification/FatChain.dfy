/** Facts about the byte ranges of cluster chains: splitting, cutting at cluster
    boundaries, concatenation, and the bound an acyclic chain obeys
    (src/fs/fat/fat16.c). */
module FatChain {
  import opened Machine
  import opened FatVolume

  /** A range is readable exactly when both of its parts are. */
  lemma ReadableSplits(v: Volume, start: U16, offset: nat, a: nat, b: nat)
    requires VolumeOk(v) && a > 0 && b > 0
    ensures ChainReadable(v, start, offset, a + b) ==>
      ChainReadable(v, start, offset, a) && ChainReadable(v, start, offset + a, b)
  {
    hide Quot, Nth, ClusterFits;
    var cs := ClusterSize(v);
    QuotMonotone(offset, offset + a - 1, cs);
    QuotMonotone(offset + a - 1, offset + a, cs);
    QuotMonotone(offset + a, offset + a + b - 1, cs);
    if ChainReadable(v, start, offset, a + b) {
      ChainIsPrefixClosed(v, start, Quot(offset + a - 1, cs), Quot(offset + a + b - 1, cs));
    }
  }

  lemma ChainBytesSplit(v: Volume, start: U16, offset: nat, a: nat, b: nat)
    requires VolumeOk(v) && a > 0 && b > 0 && ChainReadable(v, start, offset, a + b)
    ensures ChainReadable(v, start, offset, a) && ChainReadable(v, start, offset + a, b)
    ensures ChainBytes(v, start, offset, a + b) ==
      ChainBytes(v, start, offset, a) + ChainBytes(v, start, offset + a, b)
  {
    hide ChainReadable, Reaches;
    ReadableSplits(v, start, offset, a, b);
    var whole, left, right :=
      ChainBytes(v, start, offset, a + b), ChainBytes(v, start, offset, a), ChainBytes(v, start, offset + a, b);
    forall i | 0 <= i < a + b ensures whole[i] == (left + right)[i] {
      ChainByteReadable(v, start, offset, a + b, offset + i);
    }
  }

  lemma ReadablePart(v: Volume, start: U16, offset: nat, total: nat, i: nat, n: nat)
    requires VolumeOk(v) && ChainReadable(v, start, offset, total) && i + n <= total
    ensures ChainReadable(v, start, offset + i, n)
  {
    hide ChainReadable;
    if n == 0 {
      NothingToRead(v, start, offset + i);
    } else {
      if i > 0 {
        ReadableSplits(v, start, offset, i, total - i);
      }
      if i + n < total {
        ReadableSplits(v, start, offset + i, n, total - i - n);
      }
    }
  }

  lemma NothingToRead(v: Volume, start: U16, offset: nat)
    requires VolumeOk(v)
    ensures ChainReadable(v, start, offset, 0)
  {
  }

  /** Any part of a readable range is that part of its bytes. */
  lemma ChainBytesSlice(v: Volume, start: U16, offset: nat, total: nat, i: nat, n: nat)
    requires VolumeOk(v) && ChainReadable(v, start, offset, total) && i + n <= total
    ensures ChainReadable(v, start, offset + i, n)
    ensures ChainBytes(v, start, offset + i, n) == ChainBytes(v, start, offset, total)[i..i + n]
  {
    hide ChainReadable, Reaches;
    ReadablePart(v, start, offset, total, i, n);
    var whole, part := ChainBytes(v, start, offset, total), ChainBytes(v, start, offset + i, n);
    forall j | 0 <= j < n ensures part[j] == whole[i + j] {
      ChainByteReadable(v, start, offset, total, offset + (i + j));
      assert offset + (i + j) == offset + i + j;
    }
  }

  /** A range inside one cluster is a contiguous stretch of the image. */
  lemma WithinOneCluster(v: Volume, start: U16, offset: nat, n: nat)
    requires VolumeOk(v) && n > 0 && Rem(offset, ClusterSize(v)) + n <= ClusterSize(v)
    ensures Quot(offset + n - 1, ClusterSize(v)) == Quot(offset, ClusterSize(v))
    ensures ChainReadable(v, start, offset, n) ==>
      var p := BytePos(v, start, offset);
      0 <= p && p + n <= |v.image| && ChainBytes(v, start, offset, n) == v.image[p..p + n]
  {
    hide Quot, Rem, Nth, ClusterPos;
    var cs := ClusterSize(v);
    QuotStep(offset, n - 1, cs);
    if ChainReadable(v, start, offset, n) {
      assert ClusterFits(v, Nth(v, start, Quot(offset, cs)).value);
      var p := BytePos(v, start, offset);
      forall i | 0 <= i < n ensures ChainBytes(v, start, offset, n)[i] == v.image[p + i] {
        QuotStep(offset, i, cs);
        ChainByteReadable(v, start, offset, n, offset + i);
      }
    }
  }

  // ------------------------------------------------ concatenation of clusters

  ghost function ClusterBytes(v: Volume, cluster: U16): (bytes: seq<Byte>)
    requires VolumeOk(v) && ClusterFits(v, cluster)
    ensures |bytes| == ClusterSize(v)
  {
    v.image[ClusterPos(v, cluster)..ClusterPos(v, cluster) + ClusterSize(v)]
  }

  /** The first n clusters of the chain, one after another. */
  ghost function Concat(v: Volume, start: U16, n: nat): (bytes: seq<Byte>)
    requires VolumeOk(v) && (n > 0 ==> Nth(v, start, n - 1).Some? && ClustersFit(v, start, 0, n - 1))
    ensures |bytes| == n * ClusterSize(v)
    decreases n
  {
    if n == 0 then []
    else
      if n > 1 then
        ChainIsPrefixClosed(v, start, n - 2, n - 1);
        Concat(v, start, n - 1) + ClusterBytes(v, Nth(v, start, n - 1).value)
      else ClusterBytes(v, Nth(v, start, 0).value)
  }

  lemma MultipleQuot(n: nat, d: nat)
    requires d > 0
    ensures Quot(n * d, d) == n && Rem(n * d, d) == 0
  {
    QuotIsDivision(n * d, d);
    DivModUnique(n * d, d, n, 0);
  }

  lemma OneClusterBytes(v: Volume, start: U16, n: nat)
    requires VolumeOk(v) && Nth(v, start, n).Some? && ClusterFits(v, Nth(v, start, n).value)
    ensures ChainReadable(v, start, n * ClusterSize(v), ClusterSize(v))
    ensures ChainBytes(v, start, n * ClusterSize(v), ClusterSize(v)) == ClusterBytes(v, Nth(v, start, n).value)
  {
    hide Nth;
    MultipleQuot(n, ClusterSize(v));
    WithinOneCluster(v, start, n * ClusterSize(v), ClusterSize(v));
  }

  lemma WholeReadable(v: Volume, start: U16, n: nat)
    requires VolumeOk(v) && n > 0 && Nth(v, start, n - 1).Some? && ClustersFit(v, start, 0, n - 1)
    ensures ChainReadable(v, start, 0, n * ClusterSize(v))
  {
    hide Nth;
    var cs := ClusterSize(v);
    assert n * cs == (n - 1) * cs + cs;
    MultipleQuot(n - 1, cs);
    QuotStep((n - 1) * cs, cs - 1, cs);
  }

  /** Reading the whole chain from its start is the concatenation of its
      clusters. */
  lemma {:induction false} WholeChainIsConcat(v: Volume, start: U16, n: nat)
    requires VolumeOk(v) && n > 0 && Nth(v, start, n - 1).Some? && ClustersFit(v, start, 0, n - 1)
    ensures ChainReadable(v, start, 0, n * ClusterSize(v))
    ensures ChainBytes(v, start, 0, n * ClusterSize(v)) == Concat(v, start, n)
    decreases n
  {
    hide ChainReadable, ChainBytes, ClusterBytes, Nth, ClustersFit;
    var cs := ClusterSize(v);
    var from := (n - 1) * cs;
    OneMoreCluster(n, cs);
    WholeReadable(v, start, n);
    FitsSoFar(v, start, n);
    OneClusterBytes(v, start, n - 1);
    if n > 1 {
      WholeChainIsConcat(v, start, n - 1);
      ChainBytesSplit(v, start, 0, from, cs);
    }
  }

  lemma OneMoreCluster(n: nat, cs: nat)
    requires n > 0 && cs > 0
    ensures n * cs == (n - 1) * cs + cs
    ensures (n - 1) * cs > 0 <==> n > 1
  {
  }

  lemma FitsSoFar(v: Volume, start: U16, n: nat)
    requires VolumeOk(v) && n > 0 && Nth(v, start, n - 1).Some? && ClustersFit(v, start, 0, n - 1)
    ensures ClusterFits(v, Nth(v, start, n - 1).value)
    ensures n > 1 ==> Nth(v, start, n - 2).Some? && ClustersFit(v, start, 0, n - 2)
  {
    if n > 1 {
      ChainIsPrefixClosed(v, start, n - 2, n - 1);
    }
  }

  /** A read is a slice of the concatenated clusters of its chain. */
  lemma ReadIsSliceOfConcat(v: Volume, start: U16, offset: nat, total: nat, n: nat)
    requires VolumeOk(v) && n > 0 && Nth(v, start, n - 1).Some? && ClustersFit(v, start, 0, n - 1)
    requires offset + total <= n * ClusterSize(v)
    ensures ChainReadable(v, start, offset, total)
    ensures ChainBytes(v, start, offset, total) == Concat(v, start, n)[offset..offset + total]
  {
    hide ChainReadable, ChainBytes, Concat, Nth;
    WholeChainIsConcat(v, start, n);
    ChainBytesSlice(v, start, 0, n * ClusterSize(v), offset, total);
  }
}
