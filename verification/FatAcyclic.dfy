/** Why reading an acyclic subdirectory always stops: its clusters are distinct
    and lie in the image, so there are no more of them than the image holds
    (src/fs/fat/fat16.c). */
module FatAcyclic {
  import opened Machine
  import opened FatVolume
  import opened FatChain
  import opened FatDirectory

  /** No cluster occurs twice on the chain. */
  ghost predicate Acyclic(v: Volume, start: U16)
    requires VolumeOk(v)
  {
    forall i: nat, j: nat | i < j && Nth(v, start, j).Some? :: Nth(v, start, i) != Nth(v, start, j)
  }

  /** The first n clusters of the chain. */
  ghost function ClusterSet(v: Volume, start: U16, n: nat): set<int>
    requires VolumeOk(v)
  {
    set i: nat | i < n && Nth(v, start, i).Some? :: Nth(v, start, i).value
  }

  lemma {:induction false} ClusterSetSize(v: Volume, start: U16, n: nat)
    requires VolumeOk(v) && Acyclic(v, start) && (n > 0 ==> Nth(v, start, n - 1).Some?)
    ensures |ClusterSet(v, start, n)| == n
    decreases n
  {
    if n == 0 {
      assert ClusterSet(v, start, n) == {};
    } else {
      if n > 1 {
        ChainIsPrefixClosed(v, start, n - 2, n - 1);
      }
      ClusterSetSize(v, start, n - 1);
      LastIsNew(v, start, n);
    }
  }

  lemma LastIsNew(v: Volume, start: U16, n: nat)
    requires VolumeOk(v) && Acyclic(v, start) && n > 0 && Nth(v, start, n - 1).Some?
    ensures Nth(v, start, n - 1).value !in ClusterSet(v, start, n - 1)
    ensures ClusterSet(v, start, n) == ClusterSet(v, start, n - 1) + {Nth(v, start, n - 1).value}
  {
    hide Nth;
  }

  /** A set of integers in [lo, hi) has at most hi - lo elements. */
  lemma {:induction false} RangeBound(s: set<int>, lo: int, hi: int)
    requires lo <= hi && forall c | c in s :: lo <= c < hi
    ensures |s| <= hi - lo
    decreases hi - lo
  {
    if lo < hi {
      RangeBound(s - {hi - 1}, lo, hi - 1);
    } else {
      assert forall c :: c !in s;
      assert s == {};
    }
  }

  lemma SlotRange(p: int, size: int, c: int, q: int, r: int, m: int, r': int, d: int)
    requires p == q * d + r && 0 <= r < d
    requires size == m * d + r' && 0 <= r' < d
    requires 0 <= p + (c - 2) * d && p + (c - 2) * d + d <= size
    ensures 2 - q <= c < 2 - q + m
  {
    var k := c - 2 + q;
    assert p + (c - 2) * d == k * d + r;
    NoMultipleBetween(k, d);
    assert (k + 1 - m) * d == k * d + d - m * d;
    NoMultipleBetween(k + 1 - m, d);
  }

  /** Clusters inside the image are numbered within a range whose size is the
      number of whole clusters the image could hold. */
  lemma ClusterRange(v: Volume, cluster: int)
    requires VolumeOk(v) && ClusterFits(v, cluster)
    ensures var cs := ClusterSize(v);
      var q: int, m: int := Quot(EndingSector(v.header) * SECTOR_SIZE, cs), Quot(|v.image|, cs);
      2 - q <= cluster < 2 - q + m
  {
    hide Quot, Rem, EndingSector, ClusterSize, ClusterPos;
    var cs, p: int := ClusterSize(v), EndingSector(v.header) * SECTOR_SIZE;
    QuotRem(p, cs);
    QuotRem(|v.image|, cs);
    ClusterPosLinear(v, cluster);
    SlotRange(p, |v.image|, cluster, Quot(p, cs), Rem(p, cs), Quot(|v.image|, cs), Rem(|v.image|, cs), cs);
  }

  lemma ClusterPosLinear(v: Volume, cluster: int)
    ensures ClusterPos(v, cluster) == EndingSector(v.header) * SECTOR_SIZE + (cluster - 2) * ClusterSize(v)
  {
  }

  /** The chain has no more clusters than the image holds. */
  lemma ChainEnds(v: Volume, start: U16)
    requires VolumeOk(v) && Acyclic(v, start) && ClustersFit(v, start, 0, Quot(|v.image|, ClusterSize(v)))
    ensures Nth(v, start, Quot(|v.image|, ClusterSize(v))).None?
  {
    hide Acyclic, Quot;
    var cs := ClusterSize(v);
    var m := Quot(|v.image|, cs);
    var q: int := Quot(EndingSector(v.header) * SECTOR_SIZE, cs);
    var lo := 2 - q;
    if Nth(v, start, m).Some? {
      var clusters := ClusterSet(v, start, m + 1);
      ClusterSetSize(v, start, m + 1);
      forall c | c in clusters ensures lo <= c < lo + m {
        ClusterRange(v, c);
      }
      RangeBound(clusters, lo, lo + m);
    }
  }

  /** On an acyclic chain the count always stops, within int32 positions. */
  lemma AcyclicDirectoryStops(v: Volume, start: U16)
    requires VolumeOk(v) && AllFit(v, start) && Acyclic(v, start)
    ensures DirectoryOk(v, start)
  {
    hide Nth, Acyclic, AllFit, VolumeOk;
    LastPosition(v);
    var cs := ClusterSize(v);
    var m := Quot(|v.image|, cs);
    var i := m * (v.header.sectorsPerCluster * (SECTOR_SIZE / RECORD_SIZE));
    FitsSoLong(v, start, m);
    ChainEnds(v, start);
    MultipleQuot(m, cs);
    QuotStep(m * cs, RECORD_SIZE - 1, cs);
    assert !HasRecord(v, start, i);
    assert Stops(v, start, i);
  }

  lemma FitsSoLong(v: Volume, start: U16, n: nat)
    requires VolumeOk(v) && AllFit(v, start)
    ensures ClustersFit(v, start, 0, n)
  {
  }

  lemma LastPosition(v: Volume)
    requires VolumeOk(v)
    ensures ClusterSize(v) >= SECTOR_SIZE
    ensures var m := Quot(|v.image|, ClusterSize(v));
      var i := m * (v.header.sectorsPerCluster * (SECTOR_SIZE / RECORD_SIZE));
      RECORD_SIZE * i == m * ClusterSize(v) && IsInt32(RECORD_SIZE * (i + 1))
  {
    hide Quot, Rem, VolumeOk;
    VolumeImageOk(v);
    var spc, m := v.header.sectorsPerCluster, Quot(|v.image|, ClusterSize(v));
    QuotRem(|v.image|, ClusterSize(v));
    SixteenRecords(m, spc);
    RecordPastImage(|v.image|);
  }

  /** The position after a record just past the image is still a signed int. */
  lemma RecordPastImage(size: nat)
    requires size % SECTOR_SIZE == 0 && size < 0x8000_0000
    ensures size + RECORD_SIZE < 0x8000_0000
  {
  }

  lemma SixteenRecords(m: nat, spc: nat)
    ensures RECORD_SIZE * (m * (spc * (SECTOR_SIZE / RECORD_SIZE))) == m * (spc * SECTOR_SIZE)
  {
    var k := spc * 16;
    assert m * (k * RECORD_SIZE) == (m * k) * RECORD_SIZE;
  }
}
