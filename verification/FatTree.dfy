/** When a volume is in scope for every path: the subdirectories reachable from the
    root have acyclic cluster chains inside the image (src/fs/fat/fat16.c). */
module FatTree {
  import opened CStrings
  import opened FatVolume
  import opened FatNames
  import opened FatDirectory
  import opened FatAcyclic
  import opened FatItems
  import opened FatPaths

  /** A subdirectory record names an acyclic chain inside the image, in its low
      cluster word. */
  ghost predicate SoundRecord(v: Volume, r: Record)
    requires VolumeOk(v)
  {
    IsSubdirectory(r) ==> Le16(r, 20) == 0 && AllFit(v, Le16(r, 26)) && Acyclic(v, Le16(r, 26))
  }

  lemma SoundRecordOk(v: Volume, r: Record)
    requires VolumeOk(v) && SoundRecord(v, r)
    ensures RecordOk(v, r)
  {
    hide AllFit, Acyclic, DirectoryOk, VolumeOk;
    if IsSubdirectory(r) {
      FirstClusterIsLowWord(r);
      AcyclicDirectoryStops(v, Le16(r, 26));
    }
  }

  /** The records lookup considers are sound, `depth` levels down from the node. */
  ghost predicate SoundTo(v: Volume, node: Node, depth: nat)
    requires VolumeOk(v)
    decreases depth, 0
  {
    node.DirNode? && depth > 0 ==>
      forall i: nat | RECORD_SIZE * (i + 1) <= |node.data| && i < node.total && IsLive(Rec(node.data, i)) ::
        SoundBelow(v, Rec(node.data, i), depth - 1)
  }

  ghost predicate SoundBelow(v: Volume, r: Record, depth: nat)
    requires VolumeOk(v)
    decreases depth, 1
  {
    && SoundRecord(v, r)
    && (SoundRecordOk(v, r);
        OpenRecord(v, r).Some? ==> SoundTo(v, OpenRecord(v, r).value, depth))
  }

  /** Sound all the way down. */
  ghost predicate Sound(v: Volume, node: Node)
    requires VolumeOk(v)
  {
    forall depth: nat :: SoundTo(v, node, depth)
  }

  lemma {:induction false} SoundWalk(v: Volume, node: Node, names: seq<CString>, depth: nat)
    requires VolumeOk(v) && NodeOk(node) && |names| <= depth && SoundTo(v, node, depth)
    ensures WalkOk(v, node, names)
    decreases depth
  {
    hide VolumeOk, RecordOk, OpenRecord, SoundRecord;
    if names != [] && node.DirNode? && Selected(node, names[0]).Some? {
      var i := FindMatch(node.data, node.total, names[0], 0).value;
      var r := Rec(node.data, i);
      assert SoundBelow(v, r, depth - 1);
      SoundRecordOk(v, r);
      if OpenRecord(v, r).Some? {
        OpenedNodeOk(v, r);
        SoundWalk(v, OpenRecord(v, r).value, names[1..], depth - 1);
      }
    }
  }

  lemma OpenedNodeOk(v: Volume, r: Record)
    requires VolumeOk(v) && RecordOk(v, r) && OpenRecord(v, r).Some?
    ensures NodeOk(OpenRecord(v, r).value)
  {
    hide VolumeOk, DirectoryOk, SubdirTotal;
    DirectoryRecord(v, r);
  }

  /** Every path on a sound volume is in scope. */
  lemma SoundInScope(v: Volume, root: Node, names: seq<CString>)
    requires VolumeOk(v) && NodeOk(root) && Sound(v, root)
    ensures InScope(v, root, names)
  {
    hide WalkOk, SoundTo, VolumeOk;
    SoundWalk(v, root, names, |names|);
  }
}
