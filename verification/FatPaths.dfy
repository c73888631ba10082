/** What a path names on the volume, over the on-disk directory bytes
    (src/fs/fat/fat16.c). */
module FatPaths {
  import opened Machine
  import opened HeapRuns
  import opened HeapOps
  import opened CStrings
  import opened FatVolume
  import opened FatNames
  import opened FatDirectory
  import opened FatItems

  predicate NodeOk(node: Node) {
    node.DirNode? ==> RECORD_SIZE * node.total <= |node.data|
  }

  /** Record i is considered by lookup and answers to the name. */
  predicate Matches(data: seq<Byte>, i: nat, name: CString)
    requires RECORD_SIZE * (i + 1) <= |data|
  {
    IsLive(Rec(data, i)) && Answers(Rec(data, i), name)
  }

  /** The first matching record from index `from` on. */
  function FindMatch(data: seq<Byte>, total: nat, name: CString, from: nat): (r: Option<nat>)
    requires RECORD_SIZE * total <= |data| && from <= total
    ensures r.Some? ==> from <= r.value < total && Matches(data, r.value, name)
    ensures forall j: nat | from <= j < (if r.Some? then r.value else total) :: !Matches(data, j, name)
    decreases total - from
  {
    hide Matches;
    if from == total then None
    else if Matches(data, from, name) then Some(from)
    else FindMatch(data, total, name, from + 1)
  }

  /** The record a name selects in a directory. */
  function Selected(node: Node, name: CString): Option<Record>
    requires NodeOk(node) && node.DirNode?
  {
    match FindMatch(node.data, node.total, name, 0)
    case None => None
    case Some(i) => Some(Rec(node.data, i))
  }

  /** Opening everything the walk touches is within the scope of the model:
      directory clusters lie in the image and their counts stop. */
  ghost predicate WalkOk(v: Volume, node: Node, names: seq<CString>)
    requires VolumeOk(v)
    decreases |names|
  {
    NodeOk(node) &&
    (names != [] && node.DirNode? ==>
      match Selected(node, names[0])
      case None => true
      case Some(r) =>
        && RecordOk(v, r)
        && (match OpenRecord(v, r)
            case None => true
            case Some(child) => WalkOk(v, child, names[1..])))
  }

  /** The child a name resolves to. */
  ghost function Child(v: Volume, node: Node, names: seq<CString>): Option<Node>
    requires VolumeOk(v) && names != [] && WalkOk(v, node, names) && node.DirNode?
  {
    match Selected(node, names[0])
    case None => None
    case Some(r) => OpenRecord(v, r)
  }

  /** Heap blocks taken by opening every item along the walk. */
  ghost function WalkNeed(v: Volume, node: Node, names: seq<CString>): nat
    requires VolumeOk(v) && WalkOk(v, node, names)
    decreases |names|
  {
    if names == [] || node.FileNode? then 0
    else
      match Selected(node, names[0])
      case None => 0
      case Some(r) =>
        var below := match OpenRecord(v, r)
                     case None => 0
                     case Some(child) => WalkNeed(v, child, names[1..]);
        Need(v, r) + below
  }

  /** The plain meaning of a path: every component but the last must be a
      directory, and every component must resolve. */
  ghost function PathMeans(v: Volume, node: Node, names: seq<CString>): Option<Node>
    requires VolumeOk(v) && WalkOk(v, node, names)
    decreases |names|
  {
    if names == [] then Some(node)
    else if node.FileNode? then None
    else
      match Child(v, node, names)
      case None => None
      case Some(child) => PathMeans(v, child, names[1..])
  }

  /** The index of the component whose lookup in a directory comes back empty. */
  ghost function MissingAt(v: Volume, node: Node, names: seq<CString>): Option<nat>
    requires VolumeOk(v) && WalkOk(v, node, names)
    decreases |names|
  {
    if names == [] || node.FileNode? then None
    else
      match Child(v, node, names)
      case None => Some(0)
      case Some(child) =>
        match MissingAt(v, child, names[1..])
        case None => None
        case Some(i) => Some(i + 1)
  }

  /** Component i is looked up in a directory that has a record for it. */
  ghost predicate Answered(v: Volume, node: Node, names: seq<CString>, i: nat)
    requires VolumeOk(v) && WalkOk(v, node, names)
    decreases |names|
  {
    && names != [] && node.DirNode? && Selected(node, names[0]).Some?
    && (i == 0 || (Child(v, node, names).Some? && Answered(v, Child(v, node, names).value, names[1..], i - 1)))
  }

  // ------------------------------------------------ the walk on a given heap

  /** How the driver's walk ends: at a node; at a file that is not the last
      component; or with a null item for the component with this index. */
  datatype Trace = Arrives(node: Node) | MeetsFile | NullAt(index: nat)

  /** The walk of fat16_get_directory_entry over components i, i + 1, ... from a
      node already in memory: `base` are the live runs without that node's own.
      Every item is opened on the heap as it then is, and its parent released. */
  ghost function TraceOn(v: Volume, base: Live, live: Live, total: nat, node: Node, names: seq<CString>, i: nat): Trace
    decreases |names|
  {
    if names == [] then Arrives(node)
    else if node.FileNode? || !NodeOk(node) then MeetsFile
    else
      match Selected(node, names[0])
      case None => NullAt(i)
      case Some(r) =>
        match Place(v, live, total, r)
        case None => NullAt(i)
        case Some(live') =>
          TraceOn(v, base, live' - (live.Keys - base.Keys), total, OpenRecord(v, r).value, names[1..], i + 1)
  }

  /** The walk from the root directory, which is always in memory. */
  ghost function Lookup(v: Volume, live: Live, total: nat, root: Node, names: seq<CString>): Trace {
    TraceOn(v, live, live, total, root, names, 0)
  }

  /** The null item is dereferenced by the next round of the driver's loop: its
      component is neither the first, which is checked, nor the last. */
  predicate Dereferences(trace: Trace, n: nat) {
    trace.NullAt? && 0 < trace.index < n - 1
  }

  /** The walk is in the scope of the model. */
  ghost predicate InScope(v: Volume, node: Node, names: seq<CString>) {
    VolumeOk(v) && WalkOk(v, node, names)
  }

  /** One step of a walk in scope. */
  lemma TraceStep(v: Volume, base: Live, live: Live, total: nat, node: Node, rest: seq<CString>, i: nat)
    requires InScope(v, node, rest) && rest != []
    ensures node.FileNode? ==> TraceOn(v, base, live, total, node, rest, i) == MeetsFile
    ensures node.DirNode? ==>
      NodeOk(node) &&
      match Selected(node, rest[0])
      case None => TraceOn(v, base, live, total, node, rest, i) == NullAt(i)
      case Some(r) =>
        RecordOk(v, r) &&
        match Place(v, live, total, r)
        case None => TraceOn(v, base, live, total, node, rest, i) == NullAt(i)
        case Some(live') =>
          var child := OpenRecord(v, r).value;
          && InScope(v, child, rest[1..])
          && TraceOn(v, base, live, total, node, rest, i)
             == TraceOn(v, base, live' - (live.Keys - base.Keys), total, child, rest[1..], i + 1)
  {
    hide VolumeOk, RecordOk, OpenRecord, Place, FindMatch;
  }

  /** What a walk says about the volume. */
  ghost predicate Explains(v: Volume, node: Node, names: seq<CString>, i: nat, trace: Trace, room: nat)
    requires VolumeOk(v) && WalkOk(v, node, names)
  {
    match trace
    case Arrives(n) => PathMeans(v, node, names) == Some(n)
    case MeetsFile => PathMeans(v, node, names).None? && MissingAt(v, node, names).None?
    case NullAt(j) =>
      && i <= j < i + |names|
      && (MissingAt(v, node, names) == Some(j - i)
          || (Answered(v, node, names, j - i) && room < WalkNeed(v, node, names)))
  }

  lemma {:induction false} TraceExplains(v: Volume, base: Live, live: Live, total: nat, node: Node,
                                         names: seq<CString>, i: nat)
    requires VolumeOk(v) && WalkOk(v, node, names) && RunsOk(live, total)
    ensures Explains(v, node, names, i, TraceOn(v, base, live, total, node, names, i), RoomOf(live, total))
    decreases |names|
  {
    hide RunsOk, RoomOf, VolumeOk, RecordOk, OpenRecord, Need, Place;
    if names != [] && node.DirNode? && Selected(node, names[0]).Some? {
      var r := Selected(node, names[0]).value;
      PlaceRoom(v, live, total, r);
      if Place(v, live, total, r).Some? {
        var live', released := Place(v, live, total, r).value, live.Keys - base.Keys;
        RoomGrows(live', total, released);
        var trace := TraceOn(v, base, live' - released, total, OpenRecord(v, r).value, names[1..], i + 1);
        TraceExplains(v, base, live' - released, total, OpenRecord(v, r).value, names[1..], i + 1);
        ExplainsStep(v, node, names, i, trace, RoomOf(live, total), RoomOf(live' - released, total));
      }
    }
  }

  /** What the rest of a walk says, seen from the directory one component before. */
  lemma ExplainsStep(v: Volume, node: Node, names: seq<CString>, i: nat, trace: Trace, room: nat, room': nat)
    requires VolumeOk(v) && WalkOk(v, node, names) && names != [] && node.DirNode?
    requires Child(v, node, names).Some? && WalkOk(v, Child(v, node, names).value, names[1..])
    requires Explains(v, Child(v, node, names).value, names[1..], i + 1, trace, room')
    requires room' + Need(v, Selected(node, names[0]).value) >= room
    ensures Explains(v, node, names, i, trace, room)
  {
    hide VolumeOk, RecordOk, OpenRecord, Need, Selected, NodeOk;
  }

  /** The walk ends at a node only if that is what the path means, and at a null
      item only for a component that does not resolve or that the heap had no room
      for. With room for everything along the path it ends at a node exactly when
      the path means it, and at a null item exactly for the first component that
      does not resolve. */
  lemma LookupMeaning(v: Volume, live: Live, total: nat, root: Node, names: seq<CString>)
    requires VolumeOk(v) && WalkOk(v, root, names) && RunsOk(live, total)
    ensures var trace := Lookup(v, live, total, root, names);
      && Explains(v, root, names, 0, trace, RoomOf(live, total))
      && (RoomOf(live, total) >= WalkNeed(v, root, names) ==>
            && (forall n :: trace == Arrives(n) <==> PathMeans(v, root, names) == Some(n))
            && (forall j: nat :: trace == NullAt(j) <==> MissingAt(v, root, names) == Some(j)))
  {
    hide RoomOf, RunsOk, WalkNeed, TraceOn, WalkOk, VolumeOk, PathMeans, MissingAt, Answered;
    TraceExplains(v, live, live, total, root, names, 0);
    MissingHasNoMeaning(v, root, names);
  }

  lemma {:induction false} MissingHasNoMeaning(v: Volume, node: Node, names: seq<CString>)
    requires VolumeOk(v) && WalkOk(v, node, names)
    ensures MissingAt(v, node, names).Some? ==> PathMeans(v, node, names).None?
    decreases |names|
  {
    if names != [] && node.DirNode? && Child(v, node, names).Some? {
      MissingHasNoMeaning(v, Child(v, node, names).value, names[1..]);
    }
  }

  /** On a full heap the next lookup in a directory gives a null item. */
  lemma FullHeapGivesNull(v: Volume, base: Live, live: Live, total: nat, node: Node, names: seq<CString>, i: nat)
    requires RunsOk(live, total) && RoomOf(live, total) == 0
    requires names != [] && node.DirNode? && NodeOk(node)
    ensures TraceOn(v, base, live, total, node, names, i) == NullAt(i)
  {
    hide RunsOk, RoomOf, VolumeOk, RecordOk, OpenRecord, PlaceDirectory, Selected, Alloc;
    AllocRoom(live, total, ITEM_BYTES);
  }

  /** A heap that the first component fills up makes the driver dereference null on
      every longer path, even one that resolves completely. */
  lemma ExhaustionDereferences(v: Volume, live: Live, total: nat, root: Node, names: seq<CString>)
    requires VolumeOk(v) && WalkOk(v, root, names) && RunsOk(live, total) && |names| >= 3
    requires root.DirNode? && Answered(v, root, names, 1)
    requires var r := Selected(root, names[0]).value;
      Place(v, live, total, r).Some? && RoomOf(Place(v, live, total, r).value, total) == 0
    ensures Dereferences(Lookup(v, live, total, root, names), |names|)
  {
    hide RunsOk, RoomOf, VolumeOk, RecordOk, OpenRecord, Need, Place, Selected, TraceOn, WalkOk, NodeOk;
    ScopeIsNodeOk(v, root, names);
    var r := Selected(root, names[0]).value;
    var live' := Place(v, live, total, r).value;
    var child := OpenRecord(v, r).value;
    PlaceRoom(v, live, total, r);
    TraceStep(v, live, live, total, root, names, 0);
    assert live' - (live.Keys - live.Keys) == live';
    ScopeIsNodeOk(v, child, names[1..]);
    FullHeapGivesNull(v, live, live', total, child, names[1..], 1);
  }

  lemma ScopeIsNodeOk(v: Volume, node: Node, names: seq<CString>)
    requires InScope(v, node, names)
    ensures NodeOk(node)
  {
  }
}
