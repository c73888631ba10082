/** The path parser (src/fs/pparser.c): a cursor over the path that builds a
    linked list of components in kernel heap blocks. */
module PathParser {
  import opened Machine
  import opened HeapRuns
  import opened HeapOps
  import opened KernelHeap
  import opened CStrings
  import opened PathSpec

  const ROOT_BYTES := 8
  const PART_BYTES := 8

  /** One component: `part` is the content of the buffer at partAddr. */
  class PathPart {
    const addr: U32
    const partAddr: U32
    const part: seq<Byte>
    var next: PathPart?

    constructor (addr: U32, partAddr: U32, part: seq<Byte>)
      ensures this.addr == addr && this.partAddr == partAddr && this.part == part && next == null
    {
      this.addr := addr;
      this.partAddr := partAddr;
      this.part := part;
      next := null;
    }
  }

  class PathRoot {
    const addr: U32
    const driveNo: int
    var first: PathPart?
    ghost var nodes: seq<PathPart>

    constructor (addr: U32, driveNo: int)
      ensures this.addr == addr && this.driveNo == driveNo && first == null && nodes == []
    {
      this.addr := addr;
      this.driveNo := driveNo;
      first := null;
      nodes := [];
    }

    ghost predicate Valid()
      reads this, nodes
    {
      Linked(first, nodes) && forall i | 0 <= i < |nodes| :: IsPartBuffer(nodes[i].part)
    }
  }

  /** The list from `first` visits exactly these nodes. */
  ghost predicate Linked(first: PathPart?, nodes: seq<PathPart>)
    reads nodes
  {
    Chained(first, nodes, Nexts(nodes))
  }

  ghost function Nexts(nodes: seq<PathPart>): seq<PathPart?>
    reads nodes
  {
    seq(|nodes|, i requires 0 <= i < |nodes| reads nodes => nodes[i].next)
  }

  ghost predicate Chained(first: PathPart?, nodes: seq<PathPart>, nexts: seq<PathPart?>) {
    && (forall i, j | 0 <= i < j < |nodes| :: nodes[i] != nodes[j])
    && first == NodeAt(nodes, 0) && |nexts| == |nodes|
    && forall i | 0 <= i < |nodes| :: nexts[i] == NodeAt(nodes, i + 1)
  }

  ghost function NodeAt(nodes: seq<PathPart>, i: nat): PathPart? {
    if i < |nodes| then nodes[i] else null
  }

  /** A component buffer is MAX_PATH bytes and holds a terminated, non-empty
      string. */
  ghost predicate IsPartBuffer(buffer: seq<Byte>) {
    |buffer| == MAX_PATH && 0 < |Text(buffer)| < MAX_PATH
  }

  ghost function Names(nodes: seq<PathPart>): (names: seq<CString>)
    ensures |names| == |nodes|
  {
    seq(|nodes|, i requires 0 <= i < |nodes| => Text(nodes[i].part))
  }

  /** The blocks of the list, in allocation order: buffer, then node. */
  ghost function NodeBlocks(saddr: U32, nodes: seq<PathPart>): (blocks: seq<nat>)
    ensures |blocks| == 2 * |nodes|
  {
    if nodes == [] then []
    else
      var last := nodes[|nodes| - 1];
      NodeBlocks(saddr, nodes[..|nodes| - 1]) + [BlockOf(saddr, last.partAddr), BlockOf(saddr, last.addr)]
  }

  /** All blocks of a parsed path: one for the root, two per component. */
  ghost function PathBlocks(saddr: U32, rootAddr: U32, nodes: seq<PathPart>): (blocks: seq<nat>)
    ensures |blocks| == 2 * |nodes| + 1
  {
    [BlockOf(saddr, rootAddr)] + NodeBlocks(saddr, nodes)
  }

  ghost predicate PointersOk(k: Kheap, nodes: seq<PathPart>) {
    forall i | 0 <= i < |nodes| :: IsBlockPtr(k, nodes[i].addr) && IsBlockPtr(k, nodes[i].partAddr)
  }

  // ------------------------------------------------------------- operations

  /** Where the cursor stands after the segment at pos. */
  function AfterSegment(path: CString, pos: nat): (next: nat)
    requires pos <= |path|
    ensures pos <= next <= |path|
  {
    var e := SegmentEnd(path, pos);
    if e < |path| then e + 1 else e
  }

  /** pathparser_get_path_part: copy the segment at the cursor into a fresh
      buffer and step over one '/'. An empty segment gives the null pointer and
      releases the buffer. */
  method GetPathPart(k: Kheap, path: CString, pos: nat) returns (addr: U32, result: seq<Byte>, pos': nat)
    requires k.Valid() && k.heap.FreeBlocks() >= 1
    requires pos <= |path| && SegmentEnd(path, pos) - pos < MAX_PATH
    modifies k.heap, k.heap.entries, k.words
    ensures k.Valid()
    ensures pos' == AfterSegment(path, pos)
    ensures addr == 0 <==> SegmentEnd(path, pos) == pos
    ensures addr == 0 ==>
      k.heap.live == old(k.heap.live) && k.heap.FreeBlocks() == old(k.heap.FreeBlocks()) && k.Room() == old(k.Room())
    ensures addr != 0 ==>
      && IsBlockPtr(k, addr) && BlockOf(k.heap.saddr, addr) !in old(k.heap.live)
      && k.heap.live == old(k.heap.live)[BlockOf(k.heap.saddr, addr) := 1]
      && k.heap.FreeBlocks() == old(k.heap.FreeBlocks()) - 1 && k.Room() >= old(k.Room()) - 1
      && IsPartBuffer(result) && Text(result) == path[pos..SegmentEnd(path, pos)]
  {
    hide RunsOk, Encode, LongestFree, CountFree, BlockOf, IsBlockPtr, TakesOnly, Alloc, SegmentEnd;
    ghost var live := k.heap.live;
    addr := AllocBlock(k, MAX_PATH);
    var i;
    result, i, pos' := CopySegment(path, pos);
    if At(path, pos') == SLASH {
      pos' := pos' + 1;
    }
    if i == 0 {
      FreeBlock(k, addr);
      assert k.heap.live == live;
      addr := 0;
      result := [];
    }
  }

  /** The copy loop of pathparser_get_path_part; the buffer starts zeroed. */
  method CopySegment(path: CString, pos: nat) returns (result: seq<Byte>, i: nat, pos': nat)
    requires pos <= |path| && SegmentEnd(path, pos) - pos < MAX_PATH
    ensures pos' == SegmentEnd(path, pos)
    ensures |result| == MAX_PATH && Text(result) == path[pos..pos']
    ensures i == pos' - pos
  {
    hide Text;
    var buffer := new Byte[MAX_PATH](_ => 0);
    i := 0;
    pos' := pos;
    while At(path, pos') != SLASH && At(path, pos') != 0
      invariant pos <= pos' <= |path| && i == pos' - pos
      invariant SegmentEnd(path, pos) == SegmentEnd(path, pos')
      invariant forall j | 0 <= j < i :: buffer[j] == path[pos + j]
      invariant forall j | i <= j < MAX_PATH :: buffer[j] == 0
      decreases |path| - pos'
    {
      buffer[i] := path[pos'];
      pos' := pos' + 1;
      i := i + 1;
    }
    result := buffer[..];
    TextOfSegment(result, path, pos, pos');
  }

  lemma TextOfSegment(buffer: seq<Byte>, path: CString, pos: nat, e: nat)
    requires pos <= e <= |path| && e - pos < |buffer| && buffer[e - pos] == 0
    requires forall j | 0 <= j < e - pos :: buffer[j] == path[pos + j]
    ensures Text(buffer) == path[pos..e]
  {
    hide Text;
    var i := e - pos;
    assert buffer[..i] == path[pos..e];
    assert buffer == buffer[..i] + buffer[i..];
    TextOfPadded(path[pos..e], buffer[i..]);
  }

  /** What the parser still has to produce when its cursor stands at pos. */
  ghost function Rest(path: CString, pos: nat): seq<CString>
    requires pos <= |path|
  {
    LeadingNonEmpty(Split(path[pos..]))
  }

  /** Everything the parser still has to copy fits its buffers. */
  ghost predicate RestFits(path: CString, pos: nat)
    requires pos <= |path|
  {
    forall p: CString | p in Rest(path, pos) :: |p| < MAX_PATH
  }

  lemma RestFitsStep(path: CString, pos: nat)
    requires pos <= |path| && RestFits(path, pos)
    ensures SegmentEnd(path, pos) - pos < MAX_PATH
    ensures SegmentEnd(path, pos) > pos ==> RestFits(path, AfterSegment(path, pos))
  {
    hide Rest, SegmentEnd;
    RestStep(path, pos);
    var e := SegmentEnd(path, pos);
    if e > pos {
      assert Rest(path, pos)[0] == path[pos..e];
      assert forall p: CString | p in Rest(path, AfterSegment(path, pos)) :: p in Rest(path, pos);
    }
  }

  lemma RestStep(path: CString, pos: nat)
    requires pos <= |path|
    ensures var e := SegmentEnd(path, pos);
      Rest(path, pos) == if e == pos then [] else [path[pos..e]] + Rest(path, AfterSegment(path, pos))
  {
    hide Split, LeadingNonEmpty, SegmentEnd;
    var e := SegmentEnd(path, pos);
    var s := path[pos..];
    assert s[..e - pos] == path[pos..e];
    SplitHead(s, e - pos);
    if e < |path| {
      assert s[e - pos + 1..] == path[e + 1..];
    } else {
      SplitHead([], 0);
      assert path[e..] == [];
    }
  }

  /** pathparser_parser_path_part: one component appended after `last`. */
  method ParsePart(k: Kheap, last: PathPart?, path: CString, pos: nat) returns (part: PathPart?, pos': nat)
    requires k.Valid() && pos <= |path| && RestFits(path, pos)
    requires k.heap.FreeBlocks() >= if Rest(path, pos) == [] then 1 else 2
    modifies k.heap, k.heap.entries, k.words, if last == null then {} else {last}
    ensures k.Valid() && pos' == AfterSegment(path, pos)
    ensures part == null <==> Rest(path, pos) == []
    ensures part != null ==> RestFits(path, pos')
    ensures part == null ==>
      k.heap.live == old(k.heap.live) && k.heap.FreeBlocks() == old(k.heap.FreeBlocks()) && k.Room() == old(k.Room())
    ensures part == null && last != null ==> last.next == old(last.next)
    ensures part != null ==>
      && fresh(part) && part.next == null && IsPartBuffer(part.part)
      && IsBlockPtr(k, part.addr) && IsBlockPtr(k, part.partAddr)
      && Rest(path, pos) == [Text(part.part)] + Rest(path, pos')
      && BlockOf(k.heap.saddr, part.partAddr) !in old(k.heap.live)
      && BlockOf(k.heap.saddr, part.addr) !in old(k.heap.live)[BlockOf(k.heap.saddr, part.partAddr) := 1]
      && k.heap.live
         == old(k.heap.live)[BlockOf(k.heap.saddr, part.partAddr) := 1][BlockOf(k.heap.saddr, part.addr) := 1]
      && k.heap.FreeBlocks() == old(k.heap.FreeBlocks()) - 2 && k.Room() >= old(k.Room()) - 2
      && (last != null ==> last.next == part)
  {
    hide Rest, RestFits, RunsOk, Encode, LongestFree, CountFree, BlockOf, IsBlockPtr, IsPartBuffer, Text, AfterSegment,
         SegmentEnd, TakesOnly, Alloc;
    RestStep(path, pos);
    RestFitsStep(path, pos);
    var partAddr, text;
    partAddr, text, pos' := GetPathPart(k, path, pos);
    if partAddr == 0 {
      return null, pos';
    }
    var addr := AllocBlock(k, PART_BYTES);
    part := new PathPart(addr, partAddr, text);
    if last != null {
      last.next := part;
    }
  }

  /** The parsed path owns exactly one block for its root and two per component,
      all of them allocated after `base`. */
  ghost predicate Owns(k: Kheap, base: Live, root: PathRoot)
    reads k.heap, root, root.nodes
  {
    && root.Valid() && IsBlockPtr(k, root.addr) && PointersOk(k, root.nodes)
    && Added(base, k.heap.live, PathBlocks(k.heap.saddr, root.addr, root.nodes))
  }

  lemma BlocksGrow(saddr: U32, rootAddr: U32, nodes: seq<PathPart>, part: PathPart, base: Live, live: Live)
    requires Added(base, live, PathBlocks(saddr, rootAddr, nodes))
    requires BlockOf(saddr, part.partAddr) !in live
    requires BlockOf(saddr, part.addr) !in live[BlockOf(saddr, part.partAddr) := 1]
    ensures Added(base, live[BlockOf(saddr, part.partAddr) := 1][BlockOf(saddr, part.addr) := 1],
                  PathBlocks(saddr, rootAddr, nodes + [part]))
  {
    var blocks := PathBlocks(saddr, rootAddr, nodes);
    var b1, b2 := BlockOf(saddr, part.partAddr), BlockOf(saddr, part.addr);
    AddedOneMore(base, live, blocks, b1);
    AddedOneMore(base, live[b1 := 1], blocks + [b1], b2);
    assert (nodes + [part])[..|nodes|] == nodes;
    assert PathBlocks(saddr, rootAddr, nodes + [part]) == blocks + [b1] + [b2];
  }

  lemma ChainGrows(first: PathPart?, nodes: seq<PathPart>, nexts: seq<PathPart?>, part: PathPart)
    requires Chained(first, nodes, nexts) && nodes != [] && part !in nodes
    ensures Chained(first, nodes + [part], nexts[|nodes| - 1 := part] + [null])
  {
  }

  lemma LastIsUnique(first: PathPart?, nodes: seq<PathPart>, nexts: seq<PathPart?>)
    requires Chained(first, nodes, nexts)
    ensures |nexts| == |nodes|
    ensures forall i | 0 <= i < |nodes| - 1 :: nodes[i] != nodes[|nodes| - 1]
  {
  }

  lemma PointersGrow(k: Kheap, nodes: seq<PathPart>, part: PathPart)
    requires PointersOk(k, nodes) && IsBlockPtr(k, part.addr) && IsBlockPtr(k, part.partAddr)
    ensures PointersOk(k, nodes + [part])
  {
  }

  /** Append a component to the list. */
  method Append(k: Kheap, root: PathRoot, part: PathPart, path: CString, pos: nat, ghost base: Live)
    returns (next: PathPart?, pos': nat)
    requires k.Valid() && pos <= |path| && RestFits(path, pos)
    requires Owns(k, base, root) && root.nodes != [] && part == root.nodes[|root.nodes| - 1]
    requires k.heap.FreeBlocks() >= if Rest(path, pos) == [] then 1 else 2
    modifies k.heap, k.heap.entries, k.words, root, part
    ensures k.Valid() && Owns(k, base, root) && pos' == AfterSegment(path, pos)
    ensures next == null <==> Rest(path, pos) == []
    ensures next != null ==> RestFits(path, pos')
    ensures next == null ==>
      root.nodes == old(root.nodes) && k.heap.FreeBlocks() == old(k.heap.FreeBlocks()) && k.Room() == old(k.Room())
    ensures next != null ==>
      && fresh(next) && root.nodes == old(root.nodes) + [next]
      && Rest(path, pos) == [Text(next.part)] + Rest(path, pos')
      && k.heap.FreeBlocks() == old(k.heap.FreeBlocks()) - 2 && k.Room() >= old(k.Room()) - 2
  {
    hide Added, NodeBlocks, PathBlocks, Rest, RestFits, Chained, IsBlockPtr, PointersOk, RunsOk, Encode, LongestFree,
         BlockOf, IsPartBuffer, Text, AfterSegment;
    ghost var live, nodes, nexts := k.heap.live, root.nodes, Nexts(root.nodes);
    LastIsUnique(root.first, nodes, nexts);
    next, pos' := ParsePart(k, part, path, pos);
    if next == null {
      assert Nexts(root.nodes) == nexts;
    } else {
      BlocksGrow(k.heap.saddr, root.addr, nodes, next, base, live);
      PointersGrow(k, nodes, next);
      assert Nexts(nodes) == nexts[|nodes| - 1 := next];
      RecordNode(root, nodes, nexts, next);
    }
  }

  /** Extend the record of the list by the node just linked after its last one. */
  ghost method RecordNode(root: PathRoot, nodes: seq<PathPart>, nexts: seq<PathPart?>, part: PathPart)
    requires root.nodes == nodes != [] && part !in nodes && Chained(root.first, nodes, nexts) && |nexts| == |nodes|
    requires Nexts(nodes) == nexts[|nodes| - 1 := part] && part.next == null
    requires IsPartBuffer(part.part) && forall i | 0 <= i < |nodes| :: IsPartBuffer(nodes[i].part)
    modifies root
    ensures root.nodes == nodes + [part] && root.first == old(root.first) && root.Valid()
  {
    hide Chained, IsPartBuffer;
    ChainGrows(root.first, nodes, nexts, part);
    root.nodes := nodes + [part];
    assert Nexts(root.nodes) == Nexts(nodes) + [part.next];
  }

  /** The loop of pathparser_parse: the components after the first. */
  method ParseRest(k: Kheap, root: PathRoot, path: CString, pos: nat, ghost base: Live)
    requires k.Valid() && pos <= |path| && RestFits(path, pos)
    requires Owns(k, base, root) && |root.nodes| == 1 && root.first == root.nodes[0]
    requires k.heap.FreeBlocks() >= 2 * |Rest(path, pos)| + 1
    modifies k.heap, k.heap.entries, k.words, root, root.nodes
    ensures k.Valid() && Owns(k, base, root)
    ensures old(root.nodes) <= root.nodes && forall i | 1 <= i < |root.nodes| :: fresh(root.nodes[i])
    ensures Names(root.nodes) == Names(old(root.nodes)) + Rest(path, pos)
    ensures k.heap.FreeBlocks() == old(k.heap.FreeBlocks()) - 2 * |Rest(path, pos)|
    ensures k.Room() >= old(k.Room()) - 2 * |Rest(path, pos)|
  {
    hide Rest, RestFits, Owns, Names, RunsOk, Encode, LongestFree, IsPartBuffer;
    var part := root.first;
    var cur := pos;
    ghost var before, left := root.nodes, Rest(path, pos);
    while part != null
      invariant k.Valid() && pos <= cur <= |path| && Owns(k, base, root)
      invariant |root.nodes| >= 1 && before <= root.nodes
      invariant forall i | 1 <= i < |root.nodes| :: fresh(root.nodes[i])
      invariant part != null ==> part == root.nodes[|root.nodes| - 1] && left == Rest(path, cur)
      invariant part == null ==> left == []
      invariant part != null ==> RestFits(path, cur)
      invariant Names(root.nodes) + left == Names(before) + Rest(path, pos)
      invariant k.heap.FreeBlocks() == old(k.heap.FreeBlocks()) - 2 * (|root.nodes| - 1)
      invariant k.Room() >= old(k.Room()) - 2 * (|root.nodes| - 1)
      decreases |left|, part != null
    {
      ghost var nodes := root.nodes;
      part, cur := Append(k, root, part, path, cur, base);
      if part != null {
        NamesGrow(nodes, part);
        left := left[1..];
      }
    }
  }

  lemma NamesGrow(nodes: seq<PathPart>, part: PathPart)
    ensures Names(nodes + [part]) == Names(nodes) + [Text(part.part)]
  {
  }

  /** pathparser_path_valid_format. */
  method PathValidFormat(path: CString) returns (valid: bool)
    ensures valid == ValidPrefix(path)
  {
    var len := Strnlen(path, MAX_PATH);
    valid := len >= 3 && IsDigit(path[0]) && path[1] == COLON && path[2] == SLASH;
  }

  /** pathparser_get_drive_by_path. */
  method GetDriveByPath(path: CString) returns (drive: int, pos: nat)
    ensures drive < 0 <==> !ValidPrefix(path)
    ensures drive < 0 ==> drive == -EBADPATH && pos == 0
    ensures drive >= 0 ==> drive == ToNumericDigit(path[0]) && pos == 3
  {
    var valid := PathValidFormat(path);
    if !valid {
      return -EBADPATH, 0;
    }
    return ToNumericDigit(path[0]), 3;
  }

  /** pathparser_parse. Kernel allocations are not checked by the source, so the
      caller must have the peak number of blocks free; and component buffers are
      not bounded, so above 1000 characters the components must fit them. */
  method Parse(k: Kheap, path: CString) returns (root: PathRoot?)
    requires k.Valid() && PartsFit(path)
    requires k.heap.FreeBlocks() >= PeakBlocks(path)
    modifies k.heap, k.heap.entries, k.words
    ensures k.Valid()
    ensures root != null <==> Accepted(path)
    ensures root != null ==>
      && fresh(root) && fresh(root.nodes) && Owns(k, old(k.heap.live), root)
      && root.driveNo == ToNumericDigit(path[0]) && Names(root.nodes) == Components(path[3..])
      && k.heap.FreeBlocks() == old(k.heap.FreeBlocks()) - (2 * |root.nodes| + 1)
      && k.Room() >= old(k.Room()) - (2 * |root.nodes| + 1)
    ensures root == null && !(PassesLength(path) && ValidPrefix(path)) ==> k.heap.live == old(k.heap.live)
    ensures root == null && PassesLength(path) && ValidPrefix(path) ==>
      exists b: nat :: b !in old(k.heap.live) && k.heap.live == old(k.heap.live)[b := 1]
  {
    var len := Strlen(path);
    if len > MAX_PATH {
      return null;
    }
    var drive, pos := GetDriveByPath(path);
    if drive < 0 {
      return null;
    }
    hide Owns, Rest, RestFits, Names, RunsOk, Encode, Components, Split, PartsFit;
    FirstComponent(path);
    root := ParseComponents(k, path, drive);
  }

  /** pathparser_parse from the point where the drive prefix is accepted. */
  method ParseComponents(k: Kheap, path: CString, drive: int) returns (root: PathRoot?)
    requires k.Valid() && 3 <= |path| && RestFits(path, 3)
    requires k.heap.FreeBlocks() >= 2 * |Rest(path, 3)| + 2
    modifies k.heap, k.heap.entries, k.words
    ensures k.Valid()
    ensures root != null <==> Rest(path, 3) != []
    ensures root != null ==> fresh(root) && fresh(root.nodes) && Owns(k, old(k.heap.live), root)
    ensures root != null ==> root.driveNo == drive && Names(root.nodes) == Rest(path, 3)
    ensures root != null ==> k.heap.FreeBlocks() == old(k.heap.FreeBlocks()) - (2 * |root.nodes| + 1)
    ensures root != null ==> k.Room() >= old(k.Room()) - (2 * |root.nodes| + 1)
    ensures root == null ==> exists b: nat :: b !in old(k.heap.live) && k.heap.live == old(k.heap.live)[b := 1]
  {
    hide Owns, Added, NodeBlocks, PathBlocks, Rest, RestFits, Names, RunsOk, Encode, IsBlockPtr;
    ghost var base := k.heap.live;
    root := CreateRoot(k, drive);
    var first, pos := ParseFirst(k, root, path, base);
    if first == null {
      return null;
    }
    ParseRest(k, root, path, pos, base);
  }

  /** pathparser_create_root. */
  method CreateRoot(k: Kheap, drive: int) returns (root: PathRoot)
    requires k.Valid() && k.heap.FreeBlocks() >= 1
    modifies k.heap, k.heap.entries, k.words
    ensures k.Valid() && fresh(root) && root.driveNo == drive && root.first == null && root.nodes == []
    ensures IsBlockPtr(k, root.addr)
    ensures BlockOf(k.heap.saddr, root.addr) !in old(k.heap.live)
    ensures k.heap.live == old(k.heap.live)[BlockOf(k.heap.saddr, root.addr) := 1]
    ensures Added(old(k.heap.live), k.heap.live, PathBlocks(k.heap.saddr, root.addr, []))
    ensures k.heap.FreeBlocks() == old(k.heap.FreeBlocks()) - 1 && k.Room() >= old(k.Room()) - 1
  {
    ghost var base := k.heap.live;
    var addr := AllocBlock(k, ROOT_BYTES);
    root := new PathRoot(addr, drive);
    AddedOneMore(base, base, [], BlockOf(k.heap.saddr, addr));
    assert [] + [BlockOf(k.heap.saddr, addr)] == PathBlocks(k.heap.saddr, addr, []);
  }

  lemma FirstComponent(path: CString)
    requires PassesLength(path) && ValidPrefix(path) && PartsFit(path)
    ensures Accepted(path) <==> Rest(path, 3) != []
    ensures Rest(path, 3) == Components(path[3..])
    ensures RestFits(path, 3)
  {
  }

  /** The first component becomes the head of the list. */
  method ParseFirst(k: Kheap, root: PathRoot, path: CString, ghost base: Live) returns (first: PathPart?, pos: nat)
    requires k.Valid() && 3 <= |path| && RestFits(path, 3)
    requires k.heap.FreeBlocks() >= if Rest(path, 3) == [] then 1 else 2
    requires root.first == null && root.nodes == [] && IsBlockPtr(k, root.addr)
    requires Added(base, k.heap.live, PathBlocks(k.heap.saddr, root.addr, []))
    modifies k.heap, k.heap.entries, k.words, root
    ensures k.Valid() && 3 <= pos <= |path|
    ensures first == null <==> Rest(path, 3) == []
    ensures first != null ==> RestFits(path, pos)
    ensures first == null ==> k.heap.live == old(k.heap.live)
    ensures first != null ==>
      && fresh(first) && root.nodes == [first] && root.first == first && Owns(k, base, root)
      && Rest(path, 3) == Names(root.nodes) + Rest(path, pos)
      && k.heap.FreeBlocks() == old(k.heap.FreeBlocks()) - 2 && k.Room() >= old(k.Room()) - 2
  {
    hide Added, NodeBlocks, PathBlocks, Rest, RestFits, RunsOk, Encode, IsBlockPtr;
    ghost var live := k.heap.live;
    first, pos := ParsePart(k, null, path, 3);
    if first == null {
      return;
    }
    root.first := first;
    root.nodes := [first];
    BlocksGrow(k.heap.saddr, root.addr, [], first, base, live);
    assert [] + [first] == root.nodes;
    assert Nexts(root.nodes) == [null];
    assert root.Valid() && PointersOk(k, root.nodes);
    assert Names(root.nodes) == [Text(first.part)];
  }

  lemma {:induction false} NodeBlocksAt(saddr: U32, nodes: seq<PathPart>, i: nat)
    requires i < |nodes|
    ensures NodeBlocks(saddr, nodes)[2 * i] == BlockOf(saddr, nodes[i].partAddr)
    ensures NodeBlocks(saddr, nodes)[2 * i + 1] == BlockOf(saddr, nodes[i].addr)
    decreases |nodes|
  {
    if i < |nodes| - 1 {
      NodeBlocksAt(saddr, nodes[..|nodes| - 1], i);
    }
  }

  /** The blocks of the path are live and none occurs twice. */
  ghost predicate Holdable(k: Kheap, root: PathRoot)
    reads k.heap, root, root.nodes
  {
    && root.Valid() && IsBlockPtr(k, root.addr) && PointersOk(k, root.nodes)
    && Distinct(PathBlocks(k.heap.saddr, root.addr, root.nodes))
    && forall b | b in PathBlocks(k.heap.saddr, root.addr, root.nodes) :: b in k.heap.live
  }

  /** pathparser_free_root: exactly the blocks of the path are released. */
  method FreeRoot(k: Kheap, root: PathRoot)
    requires k.Valid() && Holdable(k, root)
    modifies k.heap, k.heap.entries
    ensures k.Valid()
    ensures k.heap.live == WithoutBlocks(old(k.heap.live), PathBlocks(k.heap.saddr, root.addr, root.nodes))
  {
    hide RunsOk, Encode, IsBlockPtr, WithoutBlocks, Distinct, BlockOf;
    ghost var live, blocks := k.heap.live, PathBlocks(k.heap.saddr, root.addr, root.nodes);
    ghost var i := 0;
    WithoutNone(live, blocks);
    var part := root.first;
    while part != null
      invariant k.Valid() && 0 <= i <= |root.nodes| && part == NodeAt(root.nodes, i)
      invariant k.heap.live == WithoutBlocks(live, blocks[1..1 + 2 * i])
      decreases |root.nodes| - i
    {
      var next := part.next;
      assert next == Nexts(root.nodes)[i];
      FreeNode(k, root, part, i, live, blocks);
      part := next;
      i := i + 1;
    }
    assert blocks[1..1 + 2 * i] == blocks[1..];
    ReleaseFirst(live, blocks);
    FreeBlock(k, root.addr);
  }

  /** One round of the free loop: the buffer, then the node. */
  method FreeNode(k: Kheap, root: PathRoot, part: PathPart, ghost i: nat, ghost live: Live, ghost blocks: seq<nat>)
    requires k.Valid() && i < |root.nodes| && part == root.nodes[i] && PointersOk(k, root.nodes)
    requires blocks == PathBlocks(k.heap.saddr, root.addr, root.nodes)
    requires Distinct(blocks) && forall b | b in blocks :: b in live
    requires k.heap.live == WithoutBlocks(live, blocks[1..1 + 2 * i])
    modifies k.heap, k.heap.entries
    ensures k.Valid() && k.heap.live == WithoutBlocks(live, blocks[1..1 + 2 * (i + 1)])
  {
    hide RunsOk, Encode, IsBlockPtr, WithoutBlocks, BlockOf, LongestFree, NodeBlocks;
    NodeBlocksAt(k.heap.saddr, root.nodes, i);
    var tail := blocks[1..];
    assert tail[..2 * i] == blocks[1..1 + 2 * i];
    ReleaseNext(live, tail, 2 * i);
    FreeBlock(k, part.partAddr);
    ReleaseNext(live, tail, 2 * i + 1);
    FreeBlock(k, part.addr);
    assert tail[..2 * i + 2] == blocks[1..1 + 2 * (i + 1)];
  }

  /** Ownership right after parsing is enough to free, and freeing then gives
      back the heap as it was before. */
  lemma OwnedIsHoldable(k: Kheap, base: Live, root: PathRoot)
    requires Owns(k, base, root)
    ensures Holdable(k, root)
    ensures WithoutBlocks(k.heap.live, PathBlocks(k.heap.saddr, root.addr, root.nodes)) == base
  {
    var blocks := PathBlocks(k.heap.saddr, root.addr, root.nodes);
    WithBlocksKeys(base, blocks);
    WithoutAdded(base, k.heap.live, blocks);
  }

  /** A client that parses a path and frees the result: the heap table is
      restored byte for byte, and a rejected path leaves it alone unless only
      its first component is missing. */
  method ParseThenFree(k: Kheap, path: CString) returns (root: PathRoot?)
    requires k.Valid() && PartsFit(path)
    requires k.heap.FreeBlocks() >= PeakBlocks(path)
    modifies k.heap, k.heap.entries, k.words
    ensures k.Valid()
    ensures Accepted(path) || PeakBlocks(path) == 0 ==> k.heap.entries[..] == old(k.heap.entries[..])
  {
    ghost var base := k.heap.live;
    root := Parse(k, path);
    if root != null {
      OwnedIsHoldable(k, base, root);
      FreeRoot(k, root);
    }
  }
}
