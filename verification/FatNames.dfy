/** Directory records and their 8.3 names (src/fs/fat/fat16.c; Microsoft, "FAT:
    General Overview of On-Disk Format", version 1.03, "FAT Directory
    Structure"). */
module FatNames {
  import opened Machine
  import opened CStrings
  import opened FatVolume

  const BASE_LEN := 8
  const EXT_LEN := 3
  const SPACE: Byte := 0x20
  const DOT: Byte := 46

  const DIRECTORY_FREE: Byte := 0xE5
  const DIRECTORY_EMPTY: Byte := 0x00
  const VOLUME_LABEL := 0x08
  const SUBDIRECTORY := 0x10
  const LONG_NAME := 0x0F

  /** A raw 32-byte directory record. */
  type Record = r: seq<Byte> | |r| == RECORD_SIZE witness seq(32, _ => 0)

  function BaseField(r: Record): seq<Byte> { r[..8] }
  function ExtField(r: Record): seq<Byte> { r[8..11] }
  function Attribute(r: Record): Byte { r[11] }
  function FileSize(r: Record): U32 { Le32(r, 28) }

  /** fat16_get_first_cluster: `(high << 16) | low` in a signed int. */
  function FirstCluster(r: Record): int {
    ToInt32(BitOr(Le16(r, 20) * 0x1_0000, Le16(r, 26)))
  }

  /** On FAT16 the high word is zero and the low word is the cluster. */
  lemma FirstClusterIsLowWord(r: Record)
    requires Le16(r, 20) == 0
    ensures FirstCluster(r) == Le16(r, 26)
  {
    hide BitOr;
    OrZero(Le16(r, 26));
  }

  predicate IsBlank(r: Record) {
    r[0] == DIRECTORY_EMPTY
  }

  predicate IsSubdirectory(r: Record) {
    BitAnd(Attribute(r), SUBDIRECTORY) != 0
  }

  /** Records the lookup considers: not deleted, not part of a long name, not a
      volume label. */
  predicate IsLive(r: Record) {
    && r[0] != DIRECTORY_FREE
    && Attribute(r) != LONG_NAME
    && BitAnd(Attribute(r), VOLUME_LABEL) == 0
  }

  // ------------------------------------------------------------------ names

  predicate EndsField(b: Byte) {
    b == 0 || b == SPACE
  }

  /** A fixed-width field without its padding. */
  function Trim(field: seq<Byte>): (s: seq<Byte>)
    ensures s <= field && forall i | 0 <= i < |s| :: !EndsField(s[i])
    ensures |s| < |field| ==> EndsField(field[|s|])
  {
    if field == [] || EndsField(field[0]) then [] else [field[0]] + Trim(field[1..])
  }

  /** The 8.3 name of a record: base, and a dot and the extension unless the
      extension field is empty. */
  function FullName(r: Record): (name: CString)
    ensures |name| <= BASE_LEN + 1 + EXT_LEN
  {
    var base, ext := Trim(BaseField(r)), Trim(ExtField(r));
    if ext == [] then base else base + [DOT] + ext
  }

  function Zeros(n: nat): (z: seq<Byte>)
    ensures |z| == n && forall i | 0 <= i < n :: z[i] == 0
  {
    seq(n, _ => 0)
  }

  /** What a zeroed buffer holds after a string has been written into it. */
  function Buffered(s: seq<Byte>, n: nat): (r: seq<Byte>)
    ensures |r| == n
  {
    Clip(s, n) + Zeros(n - |Clip(s, n)|)
  }

  /** fat16_to_proper_string: copy a field up to its padding, keeping one byte
      for the terminator. */
  method ToProperString(out: array<Byte>, at: nat, remaining: nat, field: seq<Byte>) returns (at': nat, remaining': nat)
    requires remaining >= 1 && at + remaining <= out.Length
    requires forall j | at <= j < at + remaining :: out[j] == 0
    modifies out
    ensures at' + remaining' == at + remaining
    ensures at' - at == |Clip(Trim(field), remaining - 1)|
    ensures out[at..at'] == Clip(Trim(field), remaining - 1)
    ensures forall j | 0 <= j < out.Length && !(at <= j < at') :: out[j] == old(out[j])
  {
    at', remaining' := at, remaining;
    var i := 0;
    while i < |field| && remaining' > 1 && field[i] != 0x00 && field[i] != 0x20
      invariant 0 <= i <= |Trim(field)| && remaining' >= 1
      invariant at' == at + i && remaining' == remaining - i
      invariant out[at..at'] == field[..i]
      invariant forall j | 0 <= j < out.Length && !(at <= j < at') :: out[j] == old(out[j])
    {
      out[at'] := field[i];
      at' := at' + 1;
      i := i + 1;
      remaining' := remaining' - 1;
    }
    if remaining' > 0 {
      out[at'] := 0x00;
    }
    assert out[at..at'] == field[..i] == Trim(field)[..i];
  }

  /** fat16_get_full_relative_filename: the buffer is cleared and then holds the
      longest prefix of the 8.3 name that leaves room for its terminator. */
  method GetFullRelativeFilename(r: Record, out: array<Byte>, maxLen: nat)
    requires maxLen == out.Length
    modifies out
    ensures maxLen > 0 ==> out[..] == Buffered(Clip(FullName(r), maxLen - 1), maxLen)
  {
    if maxLen == 0 {
      return;
    }
    hide FullName, Trim, Buffered, Clip;
    ClippedName(r, maxLen);
    ClearBuffer(out);
    ghost var base, name := Trim(BaseField(r)), Clip(FullName(r), maxLen - 1);
    ExtPresent(r);
    var at, remaining := ToProperString(out, 0, maxLen, BaseField(r));
    assert out[..at] == out[0..at] == Clip(base, maxLen - 1);
    WholeClip(base, maxLen - 1);
    if remaining > 1 && ExtField(r)[0] != 0x00 && ExtField(r)[0] != 0x20 {
      assert |base| < maxLen - 1 && out[..at] == base;
      at := AppendExtension(out, at, remaining, ExtField(r));
      assert out[..at] == base + [DOT] + Clip(Trim(ExtField(r)), maxLen - |base| - 2) == name;
    } else {
      assert out[..at] == Clip(base, maxLen - 1) == name;
    }
    BufferedIs(out[..], name, maxLen);
  }

  lemma WholeClip(s: seq<Byte>, n: nat)
    ensures |Clip(s, n)| < n ==> |s| < n && Clip(s, n) == s
  {
  }

  /** The dot and the extension, cut to the room that is left. */
  method AppendExtension(out: array<Byte>, at: nat, remaining: nat, field: seq<Byte>) returns (at': nat)
    requires remaining >= 2 && at + remaining == out.Length
    requires forall j | at <= j < out.Length :: out[j] == 0
    modifies out
    ensures at <= at' <= out.Length
    ensures out[..at'] == old(out[..at]) + [DOT] + Clip(Trim(field), remaining - 2)
    ensures forall j | at' <= j < out.Length :: out[j] == 0
  {
    hide Trim;
    out[at] := DOT;
    var remaining';
    at', remaining' := ToProperString(out, at + 1, remaining - 1, field);
    assert out[..at'] == out[..at] + [out[at]] + out[at + 1..at'];
  }

  lemma BufferedIs(o: seq<Byte>, s: seq<Byte>, n: nat)
    requires |o| == n && |s| <= n && o[..|s|] == s
    requires forall j | |s| <= j < n :: o[j] == 0
    ensures o == Buffered(s, n)
  {
    assert o == o[..|s|] + o[|s|..];
    assert o[|s|..] == Zeros(n - |s|);
  }

  method ClearBuffer(out: array<Byte>)
    modifies out
    ensures forall j | 0 <= j < out.Length :: out[j] == 0
  {
    var i := 0;
    while i < out.Length
      invariant 0 <= i <= out.Length
      invariant forall j | 0 <= j < i :: out[j] == 0
    {
      out[i] := 0x00;
      i := i + 1;
    }
  }

  lemma ExtPresent(r: Record)
    ensures EndsField(ExtField(r)[0]) <==> Trim(ExtField(r)) == []
  {
  }

  /** How the name is cut when the buffer is short. */
  lemma ClippedName(r: Record, maxLen: nat)
    requires maxLen > 0
    ensures var base, ext := Trim(BaseField(r)), Trim(ExtField(r));
      Clip(FullName(r), maxLen - 1) ==
      if |base| >= maxLen - 1 || ext == [] then Clip(base, maxLen - 1)
      else base + [DOT] + Clip(ext, maxLen - |base| - 2)
  {
    hide Trim;
    ClipOfJoined(Trim(BaseField(r)), Trim(ExtField(r)), maxLen - 1);
  }

  lemma ClipOfJoined(base: seq<Byte>, ext: seq<Byte>, n: nat)
    ensures Clip(base + [DOT] + ext, n) ==
      if |base| >= n then Clip(base, n) else base + [DOT] + Clip(ext, n - |base| - 1)
  {
    var name := base + [DOT] + ext;
    if |base| >= n {
      assert name[..n] == base[..n];
    } else if |name| >= n {
      assert name[..n] == base + [DOT] + ext[..n - |base| - 1];
    }
  }

  // --------------------------------------------------------------- matching

  /** A buffer longer than any 8.3 name holds exactly the name. */
  lemma FormattedText(r: Record, maxLen: nat)
    requires maxLen > BASE_LEN + 1 + EXT_LEN
    ensures Text(Buffered(Clip(FullName(r), maxLen - 1), maxLen)) == FullName(r)
  {
    hide FullName;
    ShortText(FullName(r), maxLen);
  }

  lemma {:induction false} ShortText(s: CString, n: nat)
    requires |s| < n
    ensures Text(Buffered(Clip(s, n - 1), n)) == s
  {
    hide Text;
    assert Clip(s, n - 1) == s && Clip(s, n) == s;
    TextOfPadded(s, Zeros(n - |s|));
  }

  /** The record answers to this name: equality up to ASCII case. */
  predicate Answers(r: Record, name: CString) {
    SameFold(FullName(r), name)
  }

  /** The bounded comparison of lookup is full equality up to case. */
  lemma BoundedMatchIsAnswer(r: Record, name: CString)
    ensures SameFold(Clip(FullName(r), MAX_PATH), Clip(name, MAX_PATH)) <==> Answers(r, name)
  {
    hide FullName;
    ShortCompareIsEquality(FullName(r), name, MAX_PATH);
  }

  function Spaces(n: nat): (s: seq<Byte>)
    ensures |s| == n && forall i | 0 <= i < n :: s[i] == SPACE
  {
    seq(n, _ => SPACE)
  }

  /** Trimming a padded field gives back its text. */
  lemma {:induction false} TrimUndoesPad(s: seq<Byte>, n: nat)
    requires |s| <= n && forall i | 0 <= i < |s| :: !EndsField(s[i])
    ensures Trim(Pad(s, n)) == s
  {
    hide Pad;
    if s == [] {
      PadOfNothing(n);
    } else {
      PadTail(s, n);
      TrimUndoesPad(s[1..], n - 1);
      assert [s[0]] + s[1..] == s;
    }
  }

  lemma PadOfNothing(n: nat)
    ensures Pad([], n) == Spaces(n)
  {
  }

  lemma PadTail(s: seq<Byte>, n: nat)
    requires 0 < |s| <= n
    ensures |Pad(s, n)| == n && Pad(s, n)[0] == s[0] && Pad(s, n)[1..] == Pad(s[1..], n - 1)
  {
    assert Clip(s, n) == s && Clip(s[1..], n - 1) == s[1..];
  }

  /** A field whose text has no dot and is padded with spaces only. */
  predicate WellPadded(field: seq<Byte>) {
    DOT !in Trim(field) && forall i | |Trim(field)| <= i < |field| :: field[i] == SPACE
  }

  function DotIndex(s: seq<Byte>): (i: nat)
    ensures i <= |s| && DOT !in s[..i] && (i < |s| ==> s[i] == DOT)
  {
    if s == [] || s[0] == DOT then 0
    else
      var i := DotIndex(s[1..]);
      assert s[..i + 1] == [s[0]] + s[1..][..i];
      i + 1
  }

  function Pad(s: seq<Byte>, n: nat): seq<Byte> {
    Clip(s, n) + Spaces(n - |Clip(s, n)|)
  }

  /** The 11 name bytes an 8.3 name stands for. */
  function Pack(name: seq<Byte>): seq<Byte> {
    var i := DotIndex(name);
    Pad(name[..i], BASE_LEN) + Pad(if i < |name| then name[i + 1..] else [], EXT_LEN)
  }

  lemma PadUndoesTrim(field: seq<Byte>)
    requires WellPadded(field)
    ensures Pad(Trim(field), |field|) == field
  {
  }

  lemma {:induction false} DotAfterBase(base: seq<Byte>, rest: seq<Byte>)
    requires DOT !in base && (rest != [] ==> rest[0] == DOT)
    ensures DotIndex(base + rest) == |base|
  {
    if base == [] {
      assert base + rest == rest;
    } else {
      DotAfterBase(base[1..], rest);
      assert (base + rest)[1..] == base[1..] + rest;
    }
  }

  lemma PackOfParts(base: seq<Byte>, ext: seq<Byte>)
    requires DOT !in base
    ensures Pack(if ext == [] then base else base + [DOT] + ext) == Pad(base, BASE_LEN) + Pad(ext, EXT_LEN)
  {
    hide DotIndex, Pad;
    var rest := if ext == [] then [] else [DOT] + ext;
    var name := base + rest;
    assert name == if ext == [] then base else base + [DOT] + ext;
    DotAfterBase(base, rest);
    assert name[..|base|] == base;
    assert ext != [] ==> name[|base| + 1..] == ext;
  }

  /** Packing the formatted name gives back the 11 name bytes of the record. */
  lemma PackUndoesFormat(r: Record)
    requires WellPadded(BaseField(r)) && WellPadded(ExtField(r))
    ensures Pack(FullName(r)) == r[..11]
  {
    hide Trim, Pack, Pad;
    PackOfParts(Trim(BaseField(r)), Trim(ExtField(r)));
    PadUndoesTrim(BaseField(r));
    PadUndoesTrim(ExtField(r));
    assert r[..11] == BaseField(r) + ExtField(r);
  }
}
