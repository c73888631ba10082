/** The abstract heap: a finite map from the first block of each live
    allocation to its length in blocks, and its encoding as the allocator's
    one-byte-per-block table (src/memory/heap/heap.h). */
module HeapRuns {
  const BLOCK_SIZE := 4096

  const TAKEN: bv8 := 0x01
  const FREE: bv8 := 0x00
  const HAS_NEXT: bv8 := 0x80
  const IS_FIRST: bv8 := 0x40

  type Live = map<nat, nat>

  /** The low nibble is what the allocator tests for "free". */
  predicate IsFree(e: bv8) {
    e & 0x0F == FREE
  }

  function RunByte(first: bool, more: bool): (e: bv8)
    ensures !IsFree(e)
    ensures first <==> e & IS_FIRST != 0
    ensures more <==> e & HAS_NEXT != 0
  {
    TAKEN | (if more then HAS_NEXT else 0) | (if first then IS_FIRST else 0)
  }

  /** The four bytes a taken block can have: alone, first, inside and last of a run;
      whatever else a byte holds, its low nibble says whether the block is free. */
  lemma TableBytes()
    ensures forall e: bv8 :: IsFree(e) <==> e % 16 == 0
    ensures RunByte(true, false) == 0x41 && RunByte(true, true) == 0xC1
    ensures RunByte(false, true) == 0x81 && RunByte(false, false) == 0x01
  {
  }

  ghost predicate Covers(live: Live, s: nat, i: int) {
    s in live && s <= i < s + live[s]
  }

  /** The block belongs to some live run. */
  ghost predicate Holds(live: Live, b: int) {
    exists s: nat :: Covers(live, s, b)
  }

  /** Live runs are non-empty, inside the heap and pairwise disjoint. */
  ghost predicate RunsOk(live: Live, total: nat) {
    && (forall s: nat | s in live :: live[s] >= 1 && s + live[s] <= total)
    && (forall s: nat, t: nat | s in live && t in live && s < t :: s + live[s] <= t)
  }

  ghost function EntryAt(live: Live, i: int): bv8 {
    if Holds(live, i) then
      var s: nat :| Covers(live, s, i);
      RunByte(i == s, i + 1 < s + live[s])
    else FREE
  }

  /** The canonical table of a set of runs. */
  ghost function Encode(live: Live, total: nat): (table: seq<bv8>)
    ensures |table| == total
  {
    seq(total, i => EntryAt(live, i))
  }

  /** n consecutive free blocks starting at b. */
  ghost predicate FreeAt(table: seq<bv8>, b: int, n: int) {
    0 <= b && b + n <= |table| && forall i | b <= i < b + n :: IsFree(table[i])
  }

  ghost predicate IsFirstFit(table: seq<bv8>, n: int, b: int) {
    FreeAt(table, b, n) && forall j | 0 <= j < b :: !FreeAt(table, j, n)
  }

  /** Somewhere there are n consecutive free blocks. */
  ghost predicate HasRoom(table: seq<bv8>, n: int) {
    exists b :: FreeAt(table, b, n)
  }

  // ---------------------------------------------------------------- encoding

  lemma EntryOfRun(live: Live, total: nat, s: nat, i: int)
    requires RunsOk(live, total) && Covers(live, s, i)
    ensures EntryAt(live, i) == RunByte(i == s, i + 1 < s + live[s])
  {
    var t: nat :| Covers(live, t, i) && EntryAt(live, i) == RunByte(i == t, i + 1 < t + live[t]);
    assert Covers(live, t, i);
  }

  lemma FreeIffUncovered(live: Live, total: nat, i: int)
    requires RunsOk(live, total) && 0 <= i < total
    ensures IsFree(Encode(live, total)[i]) <==> !Holds(live, i)
    ensures IsFree(Encode(live, total)[i]) ==> Encode(live, total)[i] == FREE
  {
  }

  /** A table entry marks the start of a run exactly when the run is live. */
  lemma FirstIffLive(live: Live, total: nat, b: nat)
    requires RunsOk(live, total) && b < total
    ensures Encode(live, total)[b] & IS_FIRST != 0 <==> b in live
  {
    if b in live {
      assert Covers(live, b, b);
      EntryOfRun(live, total, b, b);
    }
  }

  /** Different sets of runs never share a table, even when runs are adjacent. */
  lemma DecodingIsUnique(l1: Live, l2: Live, total: nat)
    requires RunsOk(l1, total) && RunsOk(l2, total)
    requires Encode(l1, total) == Encode(l2, total)
    ensures l1 == l2
  {
    SameTableSubmap(l1, l2, total);
    SameTableSubmap(l2, l1, total);
  }

  lemma SameTableSubmap(l1: Live, l2: Live, total: nat)
    requires RunsOk(l1, total) && RunsOk(l2, total)
    requires Encode(l1, total) == Encode(l2, total)
    ensures forall s: nat | s in l1 :: s in l2 && l2[s] == l1[s]
  {
    forall s: nat | s in l1 ensures s in l2 && l2[s] == l1[s] {
      FirstIffLive(l1, total, s);
      FirstIffLive(l2, total, s);
      if l1[s] < l2[s] {
        SameLength(l1, l2, total, s);
      } else if l2[s] < l1[s] {
        SameLength(l2, l1, total, s);
      }
    }
  }

  lemma SameLength(l1: Live, l2: Live, total: nat, s: nat)
    requires RunsOk(l1, total) && RunsOk(l2, total)
    requires s in l1 && s in l2 && l1[s] < l2[s]
    ensures Encode(l1, total) != Encode(l2, total)
  {
    var i := s + l1[s] - 1;
    assert Covers(l1, s, i) && Covers(l2, s, i);
    EntryOfRun(l1, total, s, i);
    EntryOfRun(l2, total, s, i);
    assert Encode(l1, total)[i] != Encode(l2, total)[i];
  }

  // ------------------------------------------------------- the two updates

  /** Adding a run over free blocks changes the table on that run only. */
  lemma EncodeAdd(live: Live, total: nat, b: nat, n: nat)
    requires RunsOk(live, total) && n >= 1 && FreeAt(Encode(live, total), b, n)
    ensures b !in live && RunsOk(live[b := n], total)
    ensures forall i | 0 <= i < total ::
      Encode(live[b := n], total)[i] ==
      if b <= i < b + n then RunByte(i == b, i + 1 < b + n) else Encode(live, total)[i]
  {
    AddedRunOk(live, total, b, n);
    var live' := live[b := n];
    forall i | 0 <= i < total
      ensures Encode(live', total)[i] ==
        if b <= i < b + n then RunByte(i == b, i + 1 < b + n) else Encode(live, total)[i]
    {
      if b <= i < b + n {
        assert Covers(live', b, i);
        EntryOfRun(live', total, b, i);
      } else {
        SameEntry(live, live', total, i);
      }
    }
  }

  lemma AddedRunOk(live: Live, total: nat, b: nat, n: nat)
    requires RunsOk(live, total) && n >= 1 && FreeAt(Encode(live, total), b, n)
    ensures b !in live && RunsOk(live[b := n], total)
  {
    var table := Encode(live, total);
    forall s: nat | s in live ensures s + live[s] <= b || b + n <= s {
      var i := if s < b then b else s;
      if i < s + live[s] && i < b + n {
        assert Covers(live, s, i);
        FreeIffUncovered(live, total, i);
        assert false;
      }
    }
  }

  /** Entries depend only on the run that covers them. */
  lemma SameEntry(l1: Live, l2: Live, total: nat, i: nat)
    requires RunsOk(l1, total) && RunsOk(l2, total) && i < total
    requires forall s: nat :: Covers(l1, s, i) ==> s in l2 && l2[s] == l1[s]
    requires forall s: nat :: Covers(l2, s, i) ==> s in l1 && l1[s] == l2[s]
    ensures Encode(l1, total)[i] == Encode(l2, total)[i]
  {
    if s: nat :| Covers(l1, s, i) {
      assert Covers(l2, s, i);
      EntryOfRun(l1, total, s, i);
      EntryOfRun(l2, total, s, i);
    } else {
      assert forall s: nat | Covers(l2, s, i) :: Covers(l1, s, i);
    }
  }

  /** Removing a run frees its blocks and nothing else. */
  lemma EncodeRemove(live: Live, total: nat, b: nat)
    requires RunsOk(live, total) && b in live
    ensures RunsOk(live - {b}, total)
    ensures forall i | 0 <= i < total ::
      Encode(live - {b}, total)[i] ==
      if b <= i < b + live[b] then FREE else Encode(live, total)[i]
  {
    var live' := live - {b};
    forall i | 0 <= i < total
      ensures Encode(live', total)[i] ==
        if b <= i < b + live[b] then FREE else Encode(live, total)[i]
    {
      if b <= i < b + live[b] {
        assert forall s: nat :: !Covers(live', s, i);
      } else {
        SameEntry(live, live', total, i);
      }
    }
  }

  lemma EncodeEmpty(total: nat)
    ensures RunsOk(map[], total) && Encode(map[], total) == seq(total, _ => FREE)
  {
  }

  // ------------------------------------------------------------ conservation

  function CountFree(table: seq<bv8>): (n: nat)
    ensures n <= |table|
  {
    if table == [] then 0 else (if IsFree(table[0]) then 1 else 0) + CountFree(table[1..])
  }

  lemma {:induction false} CountUniform(a: seq<bv8>, free: bool)
    requires forall i | 0 <= i < |a| :: IsFree(a[i]) == free
    ensures CountFree(a) == if free then |a| else 0
  {
    if a != [] {
      CountUniform(a[1..], free);
    }
  }

  /** Flipping a stretch of n blocks from taken to free adds n free blocks. */
  lemma {:induction false} CountFlip(t: seq<bv8>, t': seq<bv8>, b: nat, n: nat)
    requires |t| == |t'| && b + n <= |t|
    requires forall i | b <= i < b + n :: !IsFree(t[i]) && IsFree(t'[i])
    requires forall i | 0 <= i < |t| && !(b <= i < b + n) :: t[i] == t'[i]
    ensures CountFree(t') == CountFree(t) + n
    decreases |t|
  {
    if n == 0 {
      assert t == t';
    } else if b > 0 {
      CountFlip(t[1..], t'[1..], b - 1, n);
    } else {
      CountFlip(t[1..], t'[1..], 0, n - 1);
    }
  }

  lemma CountRemove(live: Live, total: nat, b: nat)
    requires RunsOk(live, total) && b in live
    ensures RunsOk(live - {b}, total)
    ensures CountFree(Encode(live - {b}, total)) == CountFree(Encode(live, total)) + live[b]
  {
    EncodeRemove(live, total, b);
    forall i | b <= i < b + live[b] ensures !IsFree(Encode(live, total)[i]) {
      assert Covers(live, b, i);
      FreeIffUncovered(live, total, i);
    }
    CountFlip(Encode(live, total), Encode(live - {b}, total), b, live[b]);
  }

  lemma CountAdd(live: Live, total: nat, b: nat, n: nat)
    requires RunsOk(live, total) && n >= 1 && FreeAt(Encode(live, total), b, n)
    ensures RunsOk(live[b := n], total)
    ensures CountFree(Encode(live[b := n], total)) == CountFree(Encode(live, total)) - n
  {
    EncodeAdd(live, total, b, n);
    assert live[b := n] - {b} == live;
    CountRemove(live[b := n], total, b);
  }

  /** Blocks owned by live runs. */
  ghost function LiveBlocks(live: Live): nat {
    if live == map[] then 0 else
      var s :| s in live;
      live[s] + LiveBlocks(live - {s})
  }

  /** Every block is either free or owned by exactly one live run. */
  lemma {:induction false} BlocksConserved(live: Live, total: nat)
    requires RunsOk(live, total)
    ensures CountFree(Encode(live, total)) + LiveBlocks(live) == total
    decreases |live|
  {
    if live == map[] {
      CountUniform(Encode(live, total), true);
    } else {
      var s :| s in live && LiveBlocks(live) == live[s] + LiveBlocks(live - {s});
      CountRemove(live, total, s);
      assert (live - {s}).Keys == live.Keys - {s};
      BlocksConserved(live - {s}, total);
    }
  }

  lemma {:induction false} FreeBlockExists(table: seq<bv8>)
    requires CountFree(table) >= 1
    ensures HasRoom(table, 1)
  {
    if IsFree(table[0]) {
      assert FreeAt(table, 0, 1);
    } else {
      FreeBlockExists(table[1..]);
      var b :| FreeAt(table[1..], b, 1);
      assert FreeAt(table, b + 1, 1);
    }
  }

  // ------------------------------------------------------------------- room

  /** A free stretch is counted among the free blocks. */
  lemma {:induction false} StretchIsCounted(table: seq<bv8>, b: nat, n: nat)
    requires FreeAt(table, b, n)
    ensures CountFree(table) >= n
    decreases |table|
  {
    if n > 0 {
      if b > 0 {
        StretchIsCounted(table[1..], b - 1, n);
      } else {
        StretchIsCounted(table[1..], 0, n - 1);
      }
    }
  }

  lemma RoomIsCounted(table: seq<bv8>)
    ensures CountFree(table) >= LongestFree(table)
  {
    var n := LongestFree(table);
    var b :| FreeAt(table, b, n);
    StretchIsCounted(table, b, n);
  }

  /** First fit takes at most a prefix of any free stretch that is long enough:
      a heap with room for n still has room for n - m after m are taken. */
  lemma RoomAfterFirstFit(live: Live, total: nat, m: nat, n: nat, b: nat)
    requires RunsOk(live, total) && 1 <= m <= n
    requires HasRoom(Encode(live, total), n) && IsFirstFit(Encode(live, total), m, b)
    ensures RunsOk(live[b := m], total)
    ensures HasRoom(Encode(live[b := m], total), n - m)
  {
    var table := Encode(live, total);
    EncodeAdd(live, total, b, m);
    var a :| FreeAt(table, a, n);
    assert FreeAt(table, a, n) && FreeAt(table, a, m) && b <= a;
    var a' := if b + m <= a then a else b + m;
    var table' := Encode(live[b := m], total);
    forall i | a' <= i < a' + (n - m) ensures IsFree(table'[i]) {
      assert table'[i] == table[i];
    }
    assert FreeAt(table', a', n - m);
  }

  lemma RoomAfterRemove(live: Live, total: nat, b: nat, n: nat)
    requires RunsOk(live, total) && b in live && HasRoom(Encode(live, total), n)
    ensures RunsOk(live - {b}, total)
    ensures HasRoom(Encode(live - {b}, total), n)
  {
    EncodeRemove(live, total, b);
    var a :| FreeAt(Encode(live, total), a, n);
    assert FreeAt(Encode(live - {b}, total), a, n);
  }

  lemma RoomShrinks(table: seq<bv8>, m: int, n: int)
    requires 0 <= m <= n && HasRoom(table, n)
    ensures HasRoom(table, m)
  {
    var a :| FreeAt(table, a, n);
    assert FreeAt(table, a, m);
  }

  /** Length of the longest stretch of free blocks. */
  ghost function LongestFree(table: seq<bv8>): (n: nat)
    ensures n <= |table|
    ensures forall k | 0 <= k :: HasRoom(table, k) <==> k <= n
  {
    var n := LongestFreeUpTo(table, |table|);
    assert forall k | k > |table| :: !HasRoom(table, k) by {
      forall k | k > |table| ensures !HasRoom(table, k) {
      }
    }
    assert forall k | 0 <= k <= n :: HasRoom(table, k) by {
      forall k | 0 <= k <= n ensures HasRoom(table, k) {
        RoomShrinks(table, k, n);
      }
    }
    n
  }

  ghost function LongestFreeUpTo(table: seq<bv8>, bound: nat): (n: nat)
    ensures n <= bound && HasRoom(table, n)
    ensures forall k | n < k <= bound :: !HasRoom(table, k)
  {
    if bound == 0 then
      assert FreeAt(table, 0, 0);
      0
    else if HasRoom(table, bound) then bound
    else LongestFreeUpTo(table, bound - 1)
  }
}
