/** Subdirectories: the records before the first blank one on a cluster chain
    (src/fs/fat/fat16.c), and why an acyclic chain always ends. */
module FatDirectory {
  import opened Machine
  import opened FatVolume
  import opened FatChain
  import opened FatReader
  import opened FatNames

  /** Every cluster the chain reaches lies inside the image. */
  ghost predicate AllFit(v: Volume, start: U16)
    requires VolumeOk(v)
  {
    forall n: nat | Nth(v, start, n).Some? :: ClusterFits(v, Nth(v, start, n).value)
  }

  lemma AllFitRange(v: Volume, start: U16, offset: nat, total: nat)
    requires VolumeOk(v) && AllFit(v, start)
    ensures total > 0 ==>
      && ClustersFit(v, start, Quot(offset, ClusterSize(v)), Quot(offset + total - 1, ClusterSize(v)))
      && (ChainReadable(v, start, offset, total) <==> Reaches(v, start, offset + total - 1))
  {
  }

  /** The chain holds record number i. */
  predicate HasRecord(v: Volume, start: U16, i: nat)
    requires VolumeOk(v)
  {
    Reaches(v, start, RECORD_SIZE * i + RECORD_SIZE - 1)
  }

  ghost function RecordAt(v: Volume, start: U16, i: nat): Record
    requires VolumeOk(v) && AllFit(v, start) && HasRecord(v, start, i)
  {
    AllFitRange(v, start, RECORD_SIZE * i, RECORD_SIZE);
    ChainBytes(v, start, RECORD_SIZE * i, RECORD_SIZE)
  }

  /** Counting stops at record i: it is blank, or the chain does not hold it. */
  ghost predicate Stops(v: Volume, start: U16, i: nat)
    requires VolumeOk(v) && AllFit(v, start)
  {
    HasRecord(v, start, i) ==> IsBlank(RecordAt(v, start, i))
  }

  ghost predicate FirstStop(v: Volume, start: U16, i: nat)
    requires VolumeOk(v) && AllFit(v, start)
  {
    Stops(v, start, i) && forall j: nat | j < i :: !Stops(v, start, j)
  }

  /** The directory's clusters fit, and counting stops before record positions
      leave the signed 32-bit range. */
  ghost predicate DirectoryOk(v: Volume, start: U16)
    requires VolumeOk(v)
  {
    AllFit(v, start) && exists i: nat :: Stops(v, start, i) && IsInt32(RECORD_SIZE * (i + 1))
  }

  ghost function StopIndex(v: Volume, start: U16): (i: nat)
    requires VolumeOk(v) && DirectoryOk(v, start)
    ensures FirstStop(v, start, i) && IsInt32(RECORD_SIZE * (i + 1))
  {
    var bound: nat :| Stops(v, start, bound) && IsInt32(RECORD_SIZE * (bound + 1));
    LeastStop(v, start, 0, bound)
  }

  ghost function LeastStop(v: Volume, start: U16, from: nat, bound: nat): (i: nat)
    requires VolumeOk(v) && AllFit(v, start) && from <= bound && Stops(v, start, bound)
    requires forall j: nat | j < from :: !Stops(v, start, j)
    ensures i <= bound && FirstStop(v, start, i)
    decreases bound - from
  {
    if Stops(v, start, from) then from else LeastStop(v, start, from + 1, bound)
  }

  lemma FirstStopUnique(v: Volume, start: U16, i: nat, j: nat)
    requires VolumeOk(v) && AllFit(v, start) && FirstStop(v, start, i) && FirstStop(v, start, j)
    ensures i == j
  {
  }

  /** The number of records of a subdirectory: the index of its first blank
      record, or None when the chain ends without one. */
  ghost function SubdirTotal(v: Volume, start: U16): (r: Option<nat>)
    requires VolumeOk(v) && DirectoryOk(v, start)
  {
    var i := StopIndex(v, start);
    if HasRecord(v, start, i) then Some(i) else None
  }

  /** A blank record exists exactly when there is a total. */
  lemma TotalIffBlank(v: Volume, start: U16)
    requires VolumeOk(v) && DirectoryOk(v, start)
    ensures SubdirTotal(v, start).Some? <==>
      exists i: nat :: HasRecord(v, start, i) && IsBlank(RecordAt(v, start, i))
  {
    var s := StopIndex(v, start);
    if i: nat :| HasRecord(v, start, i) && IsBlank(RecordAt(v, start, i)) {
      assert Stops(v, start, i);
      assert s <= i;
      RecordsPrefixClosed(v, start, s, i);
    }
  }

  lemma RecordsPrefixClosed(v: Volume, start: U16, i: nat, j: nat)
    requires VolumeOk(v) && i <= j && HasRecord(v, start, j)
    ensures HasRecord(v, start, i)
  {
    var cs := ClusterSize(v);
    var a, b := RECORD_SIZE * i + RECORD_SIZE - 1, RECORD_SIZE * j + RECORD_SIZE - 1;
    QuotMonotone(a, b, cs);
    ChainIsPrefixClosed(v, start, Quot(a, cs), Quot(b, cs));
  }

  // --------------------------------------------------------------- counting

  lemma StopIs(v: Volume, start: U16, i: nat)
    requires VolumeOk(v) && DirectoryOk(v, start) && i <= StopIndex(v, start)
    ensures Stops(v, start, i) <==> i == StopIndex(v, start)
  {
  }

  /** Reading record i into a 32-byte buffer. */
  method ReadRecord(d: FatDisk, start: U16, offset: nat, item: array<Byte>, ghost i: nat) returns (res: int)
    requires d.Valid() && AllFit(d.vol, start) && offset == RECORD_SIZE * i && IsInt32(RECORD_SIZE * (i + 1))
    requires item.Length == RECORD_SIZE
    modifies d.clusterStream, d.fatStream, item
    ensures res == 0 <==> HasRecord(d.vol, start, i)
    ensures res == 0 || res == -EIO
    ensures res == 0 ==> item[..] == RecordAt(d.vol, start, i)
  {
    AllFitRange(d.vol, start, RECORD_SIZE * i, RECORD_SIZE);
    res := d.ReadInternal(start, offset, RECORD_SIZE, item, 0);
  }

  /** fat16_get_total_items_for_directory_cluster: the index of the first blank
      record, or -EIO exactly when the chain ends without one. */
  method CountRecords(d: FatDisk, start: U16) returns (res: int)
    requires d.Valid() && DirectoryOk(d.vol, start)
    modifies d.clusterStream, d.fatStream
    ensures match SubdirTotal(d.vol, start)
            case Some(n) => res == n
            case None => res == -EIO
  {
    hide AllFit, HasRecord, FirstStop, Stops, DirectoryOk, VolumeOk;
    DirectoryFits(d.vol, start);
    ghost var stop := StopIndex(d.vol, start);
    var item := new Byte[RECORD_SIZE];
    var offset := 0;
    ghost var i := 0;
    while true
      invariant 0 <= i <= stop && offset == RECORD_SIZE * i
      decreases stop - i
    {
      res := ReadRecord(d, start, offset, item, i);
      StopIs(d.vol, start, i);
      WhatStops(d.vol, start, i);
      if res != 0 {
        return;
      }
      assert item[0] == item[..][0];
      if item[0] == DIRECTORY_EMPTY {
        break;
      }
      offset := offset + RECORD_SIZE;
      i := i + 1;
    }
    res := offset / RECORD_SIZE;
  }

  lemma DirectoryFits(v: Volume, start: U16)
    requires VolumeOk(v) && DirectoryOk(v, start)
    ensures AllFit(v, start)
  {
  }

  lemma WhatStops(v: Volume, start: U16, i: nat)
    requires VolumeOk(v) && AllFit(v, start)
    ensures !HasRecord(v, start, i) ==> Stops(v, start, i)
    ensures HasRecord(v, start, i) ==> (Stops(v, start, i) <==> RecordAt(v, start, i)[0] == DIRECTORY_EMPTY)
  {
  }

  // ---------------------------------------------------------------- loading

  /** Record i of a loaded directory. */
  function Rec(data: seq<Byte>, i: nat): Record
    requires RECORD_SIZE * (i + 1) <= |data|
  {
    data[RECORD_SIZE * i..RECORD_SIZE * (i + 1)]
  }

  /** All bytes of the records before the blank one can be read at once. */
  lemma RecordsReadable(v: Volume, start: U16, n: nat)
    requires VolumeOk(v) && AllFit(v, start) && HasRecord(v, start, n)
    ensures ChainReadable(v, start, 0, RECORD_SIZE * n)
    ensures n > 0 ==>
      && ClustersFit(v, start, Quot(0, ClusterSize(v)), Quot(RECORD_SIZE * n - 1, ClusterSize(v)))
      && Reaches(v, start, RECORD_SIZE * n - 1)
  {
    if n > 0 {
      RecordsPrefixClosed(v, start, n - 1, n);
      AllFitRange(v, start, 0, RECORD_SIZE * n);
    }
  }

  /** The bulk load holds exactly the records before the blank one, in order,
      none of them blank. */
  lemma BulkLoadHoldsRecords(v: Volume, start: U16, n: nat, i: nat)
    requires VolumeOk(v) && DirectoryOk(v, start) && SubdirTotal(v, start) == Some(n) && i < n
    ensures ChainReadable(v, start, 0, RECORD_SIZE * n) && HasRecord(v, start, i)
    ensures Rec(ChainBytes(v, start, 0, RECORD_SIZE * n), i) == RecordAt(v, start, i)
    ensures !IsBlank(RecordAt(v, start, i))
  {
    RecordsReadable(v, start, n);
    RecordsPrefixClosed(v, start, i, n);
    StopIs(v, start, i);
    ChainBytesSlice(v, start, 0, RECORD_SIZE * n, RECORD_SIZE * i, RECORD_SIZE);
  }
}
