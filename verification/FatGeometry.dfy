/** Where clusters lie on a volume (src/fs/fat/fat16.c; Microsoft, "FAT: General
    Overview of On-Disk Format", version 1.03, FirstDataSector and
    FirstSectorofCluster). */
module FatGeometry {
  import opened Machine
  import opened Streamer
  import opened FatVolume

  predicate SectorInCluster(v: Volume, cluster: int, sector: int) {
    ClusterSector(v, cluster) <= sector < ClusterSector(v, cluster) + v.header.sectorsPerCluster
  }

  /** Distinct clusters share no sector. */
  lemma ClustersDisjoint(v: Volume, a: int, b: int, sector: int)
    requires a != b && SectorInCluster(v, a, sector)
    ensures !SectorInCluster(v, b, sector)
  {
    var spc := v.header.sectorsPerCluster;
    assert ClusterSector(v, b) - ClusterSector(v, a) == (b - a) * spc;
    if spc > 0 {
      NoMultipleBetween(b - a, spc);
    }
  }

  lemma RoundedUp(n: nat)
    ensures (n / SECTOR_SIZE + if n % SECTOR_SIZE == 0 then 0 else 1) * SECTOR_SIZE >= n
  {
  }

  /** Numbered clusters (from 2) start right after the root directory, which
      itself follows the reserved sectors and all copies of the table. */
  lemma DataFollowsRoot(v: Volume, cluster: int)
    requires cluster >= 2
    ensures ClusterSector(v, cluster) >= EndingSector(v.header)
    ensures ClusterSector(v, 2) == EndingSector(v.header)
    ensures EndingSector(v.header) * SECTOR_SIZE >= RootSector(v.header) * SECTOR_SIZE + RootBytes(v.header)
    ensures RootSector(v.header) >= v.header.reservedSectors
  {
    var h := v.header;
    assert (cluster - 2) * h.sectorsPerCluster >= 0 && h.fatCopies * h.sectorsPerFat >= 0;
    RoundedUp(RootBytes(h));
  }

  /** The boot header of src/boot/boot.asm. */
  const SHIPPED_HEADER := Header(0x80, 200, 2, 0x40, 0x100)

  /** With the shipped header every byte of a cluster has a signed 32-bit position
      exactly for clusters up to 32763. */
  lemma ShippedClustersInRange(image: Image, cluster: int)
    requires cluster >= 2
    ensures var v := Volume(image, SHIPPED_HEADER);
      IsInt32(ClusterPos(v, cluster) + ClusterSize(v)) <==> cluster <= 32763
  {
    assert EndingSector(SHIPPED_HEADER) == 716;
  }
}
