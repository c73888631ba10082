/** What a path means: drive number, then the longest leading run of non-empty
    components (src/fs/pparser.c). Defined by splitting at '/', independently of
    the parser's cursor. */
module PathSpec {
  import opened Machine
  import opened CStrings

  const SLASH: Byte := 47
  const COLON: Byte := 58

  type Component = s: seq<Byte> | s != [] && 0 !in s && SLASH !in s witness [1]

  /** The text cut at every '/'. */
  function Split(s: CString): (parts: seq<CString>)
    ensures parts != []
    ensures forall p | p in parts :: SLASH !in p
  {
    if s == [] then [[]]
    else if s[0] == SLASH then [[]] + Split(s[1..])
    else
      var rest := Split(s[1..]);
      [[s[0]] + rest[0]] + rest[1..]
  }

  function LeadingNonEmpty(parts: seq<CString>): (r: seq<CString>)
    ensures r <= parts && forall p | p in r :: p != []
    ensures |r| < |parts| ==> parts[|r|] == []
  {
    if parts == [] || parts[0] == [] then [] else [parts[0]] + LeadingNonEmpty(parts[1..])
  }

  /** The components the parser keeps from the text after the drive prefix. */
  function Components(s: CString): (r: seq<Component>) {
    var r := LeadingNonEmpty(Split(s));
    assert forall i | 0 <= i < |r| :: r[i] in Split(s) && r[i] in r;
    r
  }

  predicate ValidPrefix(path: CString) {
    |path| >= 3 && IsDigit(path[0]) && path[1] == COLON && path[2] == SLASH
  }

  /** The lengths that pass the parser's check: up to MAX_PATH, and also above
      REALISTIC_STRLEN, where strlen returns a negative error code. */
  predicate PassesLength(path: CString) {
    |path| <= MAX_PATH || |path| > REALISTIC_STRLEN
  }

  /** The paths the parser accepts, stated without the parser. */
  predicate Accepted(path: CString) {
    PassesLength(path) && ValidPrefix(path) && Split(path[3..])[0] != []
  }

  /** Every component the parser copies leaves room for its terminator in a buffer
      of MAX_PATH bytes. */
  predicate PartsFit(path: CString) {
    PassesLength(path) && ValidPrefix(path) ==>
      forall p: CString | p in LeadingNonEmpty(Split(path[3..])) :: |p| < MAX_PATH
  }

  /** `d:/p1/.../pn`. */
  function Print(drive: nat, parts: seq<Component>): (path: CString)
    requires drive < 10
  {
    [CHAR_0 + drive, COLON, SLASH] + Join(parts)
  }

  function Join(parts: seq<Component>): (s: CString) {
    if parts == [] then []
    else if |parts| == 1 then parts[0]
    else parts[0] + [SLASH] + Join(parts[1..])
  }

  lemma {:induction false} SplitAtSlash(p: CString, rest: CString)
    requires SLASH !in p
    ensures Split(p) == [p]
    ensures Split(p + [SLASH] + rest) == [p] + Split(rest)
    decreases |p|
  {
    if p == [] {
      assert p + [SLASH] + rest == [SLASH] + rest;
      assert ([SLASH] + rest)[1..] == rest;
    } else {
      SplitAtSlash(p[1..], rest);
      assert (p + [SLASH] + rest)[1..] == p[1..] + [SLASH] + rest;
      assert [p[0]] + p[1..] == p;
    }
  }

  /** Splitting undoes joining. */
  lemma {:induction false} SplitJoin(parts: seq<Component>)
    requires parts != []
    ensures Split(Join(parts)) == parts
    decreases |parts|
  {
    if |parts| == 1 {
      SplitAtSlash(parts[0], []);
      assert parts == [parts[0]];
    } else {
      SplitAtSlash(parts[0], Join(parts[1..]));
      SplitJoin(parts[1..]);
      assert parts == [parts[0]] + parts[1..];
    }
  }

  lemma {:induction false} AllNonEmptyKept(parts: seq<CString>)
    requires forall i | 0 <= i < |parts| :: parts[i] != []
    ensures LeadingNonEmpty(parts) == parts
  {
    if parts != [] {
      AllNonEmptyKept(parts[1..]);
    }
  }

  /** Parsing a printed path gives back its drive and components. */
  lemma ParseUndoesPrint(drive: nat, parts: seq<Component>)
    requires drive < 10 && parts != [] && |Print(drive, parts)| <= MAX_PATH
    ensures Accepted(Print(drive, parts))
    ensures ToNumericDigit(Print(drive, parts)[0]) == drive
    ensures Components(Print(drive, parts)[3..]) == parts
  {
    assert Print(drive, parts)[3..] == Join(parts);
    SplitJoin(parts);
    AllNonEmptyKept(parts);
  }

  /** k components need at least 2k-1 characters. */
  lemma {:induction false} ComponentsFit(s: CString)
    ensures 2 * |LeadingNonEmpty(Split(s))| <= |s| + 1
    decreases |s|
  {
    hide Split, LeadingNonEmpty, SegmentEnd;
    SplitHead([], 0);
    if s != [] {
      var i := SegmentEnd(s, 0);
      assert s[..i] == s[0..i];
      SplitHead(s, i);
      if i > 0 && i < |s| {
        ComponentsFit(s[i + 1..]);
      }
    }
  }

  /** The index of the first '/' at or after pos, or the length. */
  function SegmentEnd(s: CString, pos: nat): (e: nat)
    requires pos <= |s|
    ensures pos <= e <= |s| && SLASH !in s[pos..e]
    ensures e < |s| ==> s[e] == SLASH
    decreases |s| - pos
  {
    if pos == |s| || s[pos] == SLASH then pos
    else
      var e := SegmentEnd(s, pos + 1);
      assert s[pos..e] == [s[pos]] + s[pos + 1..e];
      e
  }

  /** The components from a cursor: the next segment, then those after it. */
  lemma SplitHead(s: CString, e: nat)
    requires e <= |s| && SLASH !in s[..e] && (e < |s| ==> s[e] == SLASH)
    ensures Split(s)[0] == s[..e]
    ensures LeadingNonEmpty(Split(s)) ==
      if e == 0 then [] else [s[..e]] + (if e < |s| then LeadingNonEmpty(Split(s[e + 1..])) else [])
  {
    hide Split, LeadingNonEmpty;
    if e < |s| {
      CutAt(s, e);
      var p: CString, rest: CString := s[..e], s[e + 1..];
      HeadBeforeSlash(s, p, rest);
    } else {
      assert s[..e] == s;
      OnlyHead(s);
    }
  }

  lemma HeadBeforeSlash(s: CString, p: CString, rest: CString)
    requires SLASH !in p && s == p + [SLASH] + rest
    ensures Split(s)[0] == p
    ensures LeadingNonEmpty(Split(s)) == if p == [] then [] else [p] + LeadingNonEmpty(Split(rest))
  {
    hide Split, LeadingNonEmpty;
    SplitAtSlash(p, rest);
    LeadingCons(p, Split(rest));
  }

  lemma OnlyHead(p: CString)
    requires SLASH !in p
    ensures Split(p)[0] == p && LeadingNonEmpty(Split(p)) == if p == [] then [] else [p]
  {
    hide Split, LeadingNonEmpty;
    SplitAtSlash(p, []);
    LeadingCons(p, []);
    assert [p] + [] == [p];
  }

  lemma CutAt(s: CString, e: nat)
    requires e < |s| && s[e] == SLASH
    ensures s == s[..e] + [SLASH] + s[e + 1..]
    ensures 0 !in s[..e] && 0 !in s[e + 1..]
  {
  }

  lemma LeadingCons(p: CString, rest: seq<CString>)
    ensures LeadingNonEmpty([p] + rest) == if p == [] then [] else [p] + LeadingNonEmpty(rest)
    ensures LeadingNonEmpty([]) == []
  {
  }

  lemma {:induction false} ComponentsAreShort(s: CString, p: CString)
    requires p in LeadingNonEmpty(Split(s))
    ensures |p| <= |s|
    decreases |s|
  {
    hide Split, LeadingNonEmpty, SegmentEnd;
    var i := SegmentEnd(s, 0);
    assert s[..i] == s[0..i];
    SplitHead(s, i);
    if i < |s| && p != s[..i] {
      ComponentsAreShort(s[i + 1..], p);
    }
  }

  /** Every path of at most 1000 characters has components that fit. */
  lemma RealisticPartsFit(path: CString)
    requires |path| <= REALISTIC_STRLEN
    ensures PartsFit(path)
  {
    hide Split, LeadingNonEmpty;
    if PassesLength(path) && ValidPrefix(path) {
      forall p: CString | p in LeadingNonEmpty(Split(path[3..])) ensures |p| < MAX_PATH {
        ComponentsAreShort(path[3..], p);
      }
    }
  }

  /** With an accepted length and prefix, a path is rejected exactly when its text
      is empty or starts with a slash. */
  lemma RejectedIff(path: CString)
    requires PassesLength(path) && ValidPrefix(path)
    ensures !Accepted(path) <==> |path| == 3 || path[3] == SLASH
  {
    var s := path[3..];
    var i := SegmentEnd(s, 0);
    assert s[..i] == s[0..i];
    SplitHead(s, i);
  }

  /** The accepted paths, character by character: a digit, ":/" and a first component
      that is not empty, in at most 108 or more than 1000 characters. */
  lemma AcceptedIff(path: CString)
    ensures Accepted(path) <==>
      && (4 <= |path| <= 108 || |path| > 1000)
      && path[0] in Ascii("0123456789") && path[1..3] == Ascii(":/") && path[3..4] != Ascii("/")
  {
    hide Accepted, ValidPrefix;
    PrefixIff(path);
    if PassesLength(path) && ValidPrefix(path) {
      RejectedIff(path);
      assert Ascii("/") == [SLASH] && (|path| > 3 ==> path[3..4] == [path[3]]);
    }
    NotAccepted(path);
  }

  lemma PrefixIff(path: CString)
    ensures ValidPrefix(path) <==>
      |path| >= 3 && path[0] in Ascii("0123456789") && path[1..3] == Ascii(":/")
  {
    if |path| >= 3 {
      DigitsAre(path[0]);
      assert Ascii(":/") == [58, 47] && path[1..3] == [path[1], path[2]];
    }
  }

  lemma NotAccepted(path: CString)
    ensures Accepted(path) ==> PassesLength(path) && ValidPrefix(path)
  {
  }

  /** The shortest such path. */
  lemma EmptyPathRejected()
    ensures ValidPrefix([CHAR_0, COLON, SLASH]) && !Accepted([CHAR_0, COLON, SLASH])
  {
    RejectedIff([CHAR_0, COLON, SLASH]);
  }

  function Slashes(n: nat): (s: CString)
    ensures |s| == n && forall i | 0 <= i < n :: s[i] == SLASH
  {
    seq(n, _ => SLASH)
  }

  /** A path of 1001 characters that passes the length check although MAX_PATH is
      108: one letter, then slashes. */
  lemma LongPathAccepted()
    ensures var path := [CHAR_0, COLON, SLASH, 97] + Slashes(997);
      |path| == 1001 && Accepted(path) && PartsFit(path) && Components(path[3..]) == [[97]]
  {
    hide LeadingNonEmpty, Split;
    var path := [CHAR_0, COLON, SLASH, 97] + Slashes(997);
    var s, rest := path[3..], path[5..];
    assert s[..1] == [97] && s[1] == SLASH && s[2..] == rest;
    SplitHead(s, 1);
    assert rest[..0] == [] && rest[0] == SLASH;
    SplitHead(rest, 0);
  }

  /** Blocks the parser holds at its peak: the root, two per component, and the
      buffer of the attempt that finds no further component. */
  function PeakBlocks(path: CString): nat {
    if PassesLength(path) && ValidPrefix(path) then 2 * |Components(path[3..])| + 2 else 0
  }

  lemma PeakIsBounded(path: CString)
    requires |path| <= REALISTIC_STRLEN
    ensures PeakBlocks(path) <= 108
  {
    if PassesLength(path) && ValidPrefix(path) {
      ComponentsFit(path[3..]);
    }
  }
}
