/** Finding, opening and closing files: directory items are loaded, cloned from
    and released along the way (src/fs/fat/fat16.c). */
module FatLookup {
  import opened Machine
  import opened HeapRuns
  import opened HeapOps
  import opened KernelHeap
  import opened CStrings
  import opened PathParser
  import opened FatVolume
  import opened FatReader
  import opened FatNames
  import opened FatDirectory
  import opened FatItems
  import opened FatPaths

  /** fat16_new_fat_item_for_directory_item (with fat16_clone_directory_item). */
  method NewItem(k: Kheap, d: FatDisk, r: Record) returns (item: Option<FatItem>)
    requires k.Valid() && d.Valid() && RecordOk(d.vol, r)
    modifies k.heap, k.heap.entries, k.words, d.clusterStream, d.fatStream
    ensures k.Valid()
    ensures item.Some? ==>
      ItemOwned(k, old(k.heap.live), item.value) && OpenRecord(d.vol, r) == Some(View(item.value))
    ensures match Place(d.vol, old(k.heap.live), k.heap.entries.Length, r)
            case Some(live) => item.Some? && k.heap.live == live
            case None => item.None? && k.heap.live == old(k.heap.live)
  {
    hide IsBlockPtr, BlockOf, RunsOk, Encode, VolumeOk, RecordOk, IsSubdirectory, Extends, DirectoryRuns,
         DirectoryPtrsOk, PlaceDirectory, Alloc;
    ghost var base, saddr := k.heap.live, k.heap.saddr;
    FileRecord(d.vol, r);
    OneBlock(ITEM_BYTES);
    OneBlock(RECORD_SIZE);
    var addr := TryAlloc(k, ITEM_BYTES);
    if addr == 0 {
      return None;
    }
    ExtendOnce(base, BlockOf(saddr, addr), 1);
    if IsSubdirectory(r) {
      var directoryAddr, directory := LoadDirectory(k, d, r);
      if directoryAddr == 0 {
        FreeBlock(k, addr);
        return None;
      }
      ExtendMore(base, BlockOf(saddr, addr), DirectoryRuns(saddr, directoryAddr, directory), k.heap.live);
      item := Some(DirItem(addr, directoryAddr, directory));
    } else {
      var recordAddr := TryAlloc(k, RECORD_SIZE);
      if recordAddr == 0 {
        FreeBlock(k, addr);
        return None;
      }
      ExtendTwice(base, BlockOf(saddr, addr), BlockOf(saddr, recordAddr), 1);
      item := Some(FileItem(addr, recordAddr, r));
    }
  }

  lemma FileRecord(v: Volume, r: Record)
    requires VolumeOk(v) && RecordOk(v, r)
    ensures !IsSubdirectory(r) ==> OpenRecord(v, r) == Some(FileNode(r))
  {
  }

  /** Runs added on top of one block are together runs on top of the base. */
  lemma ExtendMore(base: Live, b: nat, runs: Live, live: Live)
    requires b !in base && Extends(base[b := 1], live, runs)
    ensures b !in runs && Extends(base, live, runs + map[b := 1])
  {
  }

  /** fat16_find_item_in_directory: open the first live record whose 8.3 name
      equals the component up to case. */
  method FindItem(k: Kheap, d: FatDisk, directory: Directory, part: seq<Byte>)
    returns (item: Option<FatItem>)
    requires k.Valid() && d.Valid() && IsPartBuffer(part)
    requires var node := DirNode(directory.data, directory.total);
      NodeOk(node) && (Selected(node, Text(part)).Some? ==> RecordOk(d.vol, Selected(node, Text(part)).value))
    modifies k.heap, k.heap.entries, k.words, d.clusterStream, d.fatStream
    ensures k.Valid()
    ensures item.Some? ==> ItemOwned(k, old(k.heap.live), item.value)
    ensures item.None? ==> k.heap.live == old(k.heap.live)
    ensures match Selected(DirNode(directory.data, directory.total), Text(part))
            case None => item.None?
            case Some(r) =>
              match Place(d.vol, old(k.heap.live), k.heap.entries.Length, r)
              case None => item.None?
              case Some(live) =>
                item.Some? && k.heap.live == live && OpenRecord(d.vol, r) == Some(View(item.value))
  {
    hide ItemOwned, OpenRecord, Place, RecordOk, VolumeOk, RunsOk, Encode, Matches;
    var name := new Byte[MAX_PATH];
    var found := false;
    var i := 0;
    while i < directory.total
      modifies name
      invariant 0 <= i <= directory.total && !found
      invariant forall j: nat | j < i :: !Matches(directory.data, j, Text(part))
    {
      found := CheckRecord(directory.data, i, part, name);
      if found {
        break;
      }
      i := i + 1;
    }
    if !found {
      NoMatchIs(directory.data, directory.total, Text(part), 0);
      return None;
    }
    FirstMatchIs(directory.data, directory.total, Text(part), i, 0);
    item := NewItem(k, d, Rec(directory.data, i));
  }

  /** The body of the lookup loop: skip deleted records, long-name parts and
      volume labels, then compare the formatted name. */
  method CheckRecord(data: seq<Byte>, i: nat, part: seq<Byte>, name: array<Byte>) returns (matches: bool)
    requires RECORD_SIZE * (i + 1) <= |data| && IsPartBuffer(part) && name.Length == MAX_PATH
    modifies name
    ensures matches <==> Matches(data, i, Text(part))
  {
    hide FullName, Answers;
    var r: Record := Rec(data, i);
    if r[0] == DIRECTORY_FREE || Attribute(r) == LONG_NAME || BitAnd(Attribute(r), VOLUME_LABEL) != 0 {
      return false;
    }
    GetFullRelativeFilename(r, name, MAX_PATH);
    matches := CompareName(name, r, part);
  }

  /** The comparison of lookup, on the formatted name and the path component. */
  method CompareName(name: array<Byte>, r: Record, part: seq<Byte>) returns (matches: bool)
    requires name.Length == MAX_PATH && name[..] == Buffered(Clip(FullName(r), MAX_PATH - 1), MAX_PATH)
    requires IsPartBuffer(part)
    ensures matches <==> Answers(r, Text(part))
  {
    hide FullName, Buffered, Answers, Text;
    FormattedText(r, MAX_PATH);
    BoundedMatchIsAnswer(r, Text(part));
    var res := Istrncmp(name[..], part, MAX_PATH);
    matches := res == 0;
  }

  lemma FirstMatchIs(data: seq<Byte>, total: nat, name: CString, i: nat, from: nat)
    requires RECORD_SIZE * total <= |data| && from <= i < total && Matches(data, i, name)
    requires forall j: nat | from <= j < i :: !Matches(data, j, name)
    ensures FindMatch(data, total, name, from) == Some(i)
  {
    hide Matches, FindMatch;
  }

  lemma NoMatchIs(data: seq<Byte>, total: nat, name: CString, from: nat)
    requires RECORD_SIZE * total <= |data| && from <= total
    requires forall j: nat | from <= j < total :: !Matches(data, j, name)
    ensures FindMatch(data, total, name, from).None?
  {
    hide Matches, FindMatch;
  }

  // ------------------------------------------------------------ path lookup

  /** The result of fat16_get_directory_entry, with the null dereference of its
      loop made explicit. */
  datatype Entry = Item(item: FatItem) | NoItem | Fault

  /** What a walk over n components comes to. */
  ghost predicate Agrees(entry: Entry, trace: Trace, n: nat) {
    match trace
    case Arrives(node) => entry.Item? && View(entry.item) == node
    case MeetsFile => entry.NoItem?
    case NullAt(_) => if Dereferences(trace, n) then entry.Fault? else entry.NoItem?
  }

  function RootNode(root: Directory): Node {
    DirNode(root.data, root.total)
  }

  /** Replacing an item by the one found inside it. */
  lemma SwapItems(base: Live, mid: Live, live: Live, outer: Live, inner: Live)
    requires Extends(base, mid, outer) && Extends(mid, live, inner)
    ensures outer.Keys <= live.Keys
    ensures Extends(base, live - outer.Keys, inner)
  {
    assert live - outer.Keys == base + inner;
  }

  lemma DropItem(base: Live, live: Live, runs: Live)
    requires Extends(base, live, runs)
    ensures runs.Keys <= live.Keys && live - runs.Keys == base
  {
  }

  /** The walk over the rest of a path, from an item in memory, ends this way. */
  ghost predicate Leads(v: Volume, base: Live, live: Live, total: nat, node: Node, rest: seq<CString>, i: nat,
                        trace: Trace) {
    InScope(v, node, rest) && TraceOn(v, base, live, total, node, rest, i) == trace
  }

  /** One round of the loop of fat16_get_directory_entry on a directory: look the
      component up in it, then release the directory. */
  method Descend(k: Kheap, d: FatDisk, cur: FatItem, part: seq<Byte>, ghost base: Live, ghost r: Option<Record>)
    returns (next: Option<FatItem>)
    requires k.Valid() && d.Valid() && IsPartBuffer(part) && cur.DirItem? && ItemOwned(k, base, cur)
    requires NodeOk(View(cur)) && r == Selected(View(cur), Text(part)) && (r.Some? ==> RecordOk(d.vol, r.value))
    modifies k.heap, k.heap.entries, k.words, d.clusterStream, d.fatStream
    ensures k.Valid()
    ensures next.Some? ==> ItemOwned(k, base, next.value)
    ensures next.None? ==> k.heap.live == base
    ensures match r
            case None => next.None?
            case Some(r) =>
              match Place(d.vol, old(k.heap.live), k.heap.entries.Length, r)
              case None => next.None?
              case Some(live) =>
                && next.Some? && OpenRecord(d.vol, r) == Some(View(next.value))
                && k.heap.live == live - (old(k.heap.live).Keys - base.Keys)
  {
    hide IsBlockPtr, BlockOf, RunsOk, Encode, VolumeOk, RecordOk, ItemOk, Extends, Runs, OpenRecord, Place, Selected;
    ghost var mid, runs := k.heap.live, Runs(k.heap.saddr, cur);
    next := FindItem(k, d, cur.directory, part);
    OwnRuns(base, mid, runs);
    if next.Some? {
      SwapItems(base, mid, k.heap.live, runs, Runs(k.heap.saddr, next.value));
    } else {
      DropItem(base, mid, runs);
    }
    FreeItem(k, cur);
  }

  lemma OwnRuns(base: Live, live: Live, runs: Live)
    requires Extends(base, live, runs)
    ensures live.Keys - base.Keys == runs.Keys
  {
  }

  /** One round of the loop of fat16_get_directory_entry on a non-null item. `stop`
      says that the item is a file, which ends the loop. */
  method Round(k: Kheap, d: FatDisk, cur: FatItem, part: seq<Byte>, ghost base: Live, ghost rest: seq<CString>,
               ghost i: nat, ghost trace: Trace)
    returns (next: Option<FatItem>, stop: bool)
    requires k.Valid() && d.Valid() && IsPartBuffer(part) && ItemOwned(k, base, cur)
    requires rest != [] && rest[0] == Text(part)
    requires Leads(d.vol, base, k.heap.live, k.heap.entries.Length, View(cur), rest, i, trace)
    modifies k.heap, k.heap.entries, k.words, d.clusterStream, d.fatStream
    ensures k.Valid() && (stop ==> next.None?)
    ensures next.Some? ==>
      && ItemOwned(k, base, next.value)
      && Leads(d.vol, base, k.heap.live, k.heap.entries.Length, View(next.value), rest[1..], i + 1, trace)
    ensures next.None? ==> k.heap.live == base && trace == if stop then MeetsFile else NullAt(i)
  {
    hide IsBlockPtr, BlockOf, RunsOk, Encode, VolumeOk, RecordOk, ItemOk, Extends, Runs, TraceOn, WalkOk,
         IsPartBuffer, OpenRecord, Place, Selected;
    ghost var live, total := k.heap.live, k.heap.entries.Length;
    TraceStep(d.vol, base, live, total, View(cur), rest, i);
    if !cur.DirItem? {
      DropItem(base, live, Runs(k.heap.saddr, cur));
      FreeItem(k, cur);
      return None, true;
    }
    stop := false;
    next := Descend(k, d, cur, part, base, Selected(View(cur), rest[0]));
  }

  /** The list of path components a caller passes in: not empty, each a usable
      name. */
  ghost predicate PathOk(first: PathPart?, nodes: seq<PathPart>)
    reads nodes
  {
    nodes != [] && Linked(first, nodes) && forall i | 0 <= i < |nodes| :: IsPartBuffer(nodes[i].part)
  }

  /** fat16_get_directory_entry. The heap is left with the found item on top of
      what was live before, and otherwise exactly as it was. The outcome is that of
      the walk on this heap: a null item is dereferenced exactly when it is that of
      a component neither first nor last. */
  method GetDirectoryEntry(k: Kheap, d: FatDisk, root: Directory, path: PathPart, ghost nodes: seq<PathPart>)
    returns (entry: Entry)
    requires k.Valid() && d.Valid() && PathOk(path, nodes) && InScope(d.vol, RootNode(root), Names(nodes))
    modifies k.heap, k.heap.entries, k.words, d.clusterStream, d.fatStream
    ensures k.Valid()
    ensures entry.Item? ==> ItemOwned(k, old(k.heap.live), entry.item)
    ensures !entry.Item? ==> k.heap.live == old(k.heap.live)
    ensures Agrees(entry, Lookup(d.vol, old(k.heap.live), k.heap.entries.Length, RootNode(root), Names(nodes)), |nodes|)
  {
    hide IsBlockPtr, BlockOf, RunsOk, Encode, VolumeOk, ItemOwned, Leads, Lookup, InScope,
         IsPartBuffer, Chained, RootNode, View, LongestFree, AddrOf, Text, NodeOk;
    ghost var base, total, names := k.heap.live, k.heap.entries.Length, Names(nodes);
    ghost var trace := Lookup(d.vol, base, total, RootNode(root), names);
    FirstNode(path, nodes);
    var cur := FirstRound(k, d, root, path.part, names, trace);
    if cur.None? {
      return NoItem;
    }
    entry := WalkRest(k, d, cur.value, path, nodes, base, names[1..], trace);
  }

  /** The loop of fat16_get_directory_entry, over the components after the first. */
  method WalkRest(k: Kheap, d: FatDisk, first: FatItem, path: PathPart, ghost nodes: seq<PathPart>,
                  ghost base: Live, ghost names: seq<CString>, ghost trace: Trace)
    returns (entry: Entry)
    requires k.Valid() && d.Valid() && PathOk(path, nodes) && ItemOwned(k, base, first) && names == Names(nodes)[1..]
    requires Leads(d.vol, base, k.heap.live, k.heap.entries.Length, View(first), names, 1, trace)
    modifies k.heap, k.heap.entries, k.words, d.clusterStream, d.fatStream
    ensures k.Valid()
    ensures entry.Item? ==> ItemOwned(k, base, entry.item)
    ensures !entry.Item? ==> k.heap.live == base
    ensures Agrees(entry, trace, |nodes|)
  {
    hide IsBlockPtr, BlockOf, RunsOk, Encode, VolumeOk, ItemOwned, Leads, InScope, IsPartBuffer, Chained,
         View, LongestFree, AddrOf, Text, NodeOk;
    var cur := Some(first);
    FirstNode(path, nodes);
    var next := path.next;
    ghost var i, rest := 1, names;
    while next != null
      invariant k.Valid() && Linked(path, nodes) && 1 <= i <= |nodes| && next == NodeAt(nodes, i)
      invariant |rest| == |nodes| - i && (forall j | 0 <= j < |rest| :: rest[j] == Names(nodes)[i + j])
      invariant cur.Some? ==>
        && ItemOwned(k, base, cur.value)
        && Leads(d.vol, base, k.heap.live, k.heap.entries.Length, View(cur.value), rest, i, trace)
      invariant cur.None? ==> k.heap.live == base && i >= 2 && trace == NullAt(i - 1)
      decreases |rest|
    {
      if cur.None? {
        return Fault;
      }
      NextNode(path, nodes, i);
      assert next == nodes[i] && rest[0] == Text(next.part);
      var stop;
      cur, stop := Round(k, d, cur.value, next.part, base, rest, i, trace);
      if stop {
        return NoItem;
      }
      assert Linked(path, nodes);
      NextNode(path, nodes, i);
      next := next.next;
      rest := rest[1..];
      i := i + 1;
    }
    if cur.None? {
      return NoItem;
    }
    WalkEnd(d.vol, base, k.heap.live, k.heap.entries.Length, View(cur.value), i, trace);
    return Item(cur.value);
  }

  /** The first lookup, in the root directory. */
  method FirstRound(k: Kheap, d: FatDisk, root: Directory, part: seq<Byte>, ghost names: seq<CString>,
                    ghost trace: Trace)
    returns (cur: Option<FatItem>)
    requires k.Valid() && d.Valid() && IsPartBuffer(part) && names != [] && names[0] == Text(part)
    requires InScope(d.vol, RootNode(root), names)
    requires trace == Lookup(d.vol, k.heap.live, k.heap.entries.Length, RootNode(root), names)
    modifies k.heap, k.heap.entries, k.words, d.clusterStream, d.fatStream
    ensures k.Valid()
    ensures cur.Some? ==>
      && ItemOwned(k, old(k.heap.live), cur.value)
      && Leads(d.vol, old(k.heap.live), k.heap.live, k.heap.entries.Length, View(cur.value), names[1..], 1, trace)
    ensures cur.None? ==> k.heap.live == old(k.heap.live) && trace == NullAt(0)
  {
    hide RunsOk, Encode, VolumeOk, RecordOk, ItemOwned, WalkOk, TraceOn, IsPartBuffer, OpenRecord, Place, Selected;
    ghost var base := k.heap.live;
    TraceStep(d.vol, base, base, k.heap.entries.Length, RootNode(root), names, 0);
    cur := FindItem(k, d, root, part);
    if cur.Some? {
      assert k.heap.live - (base.Keys - base.Keys) == k.heap.live;
    }
  }

  lemma FirstNode(first: PathPart?, nodes: seq<PathPart>)
    requires PathOk(first, nodes)
    ensures first == nodes[0] && first.next == NodeAt(nodes, 1) && IsPartBuffer(first.part)
  {
    assert Nexts(nodes)[0] == first.next;
  }

  lemma NextNode(first: PathPart?, nodes: seq<PathPart>, i: nat)
    requires Linked(first, nodes) && i < |nodes|
    requires forall i | 0 <= i < |nodes| :: IsPartBuffer(nodes[i].part)
    ensures nodes[i].next == NodeAt(nodes, i + 1) && IsPartBuffer(nodes[i].part)
  {
    assert Nexts(nodes)[i] == nodes[i].next;
  }

  lemma WalkEnd(v: Volume, base: Live, live: Live, total: nat, node: Node, i: nat, trace: Trace)
    requires Leads(v, base, live, total, node, [], i, trace)
    ensures trace == Arrives(node)
  {
  }
}
