/** C strings and the string routines the file system uses
    (src/string/string.c). A string is the bytes before its terminator; a
    buffer is the bytes of the object that holds it. */
module CStrings {
  import opened Machine

  const REALISTIC_STRLEN := 1000

  type CString = s: seq<Byte> | 0 !in s witness []

  /** The byte at index i, the terminator included. */
  function At(s: CString, i: nat): Byte
    requires i <= |s|
  {
    if i < |s| then s[i] else 0
  }

  /** The string a buffer holds: its bytes before the first NUL. */
  function Text(buffer: seq<Byte>): (s: CString)
    ensures s <= buffer && (s == buffer || buffer[|s|] == 0)
  {
    if buffer == [] || buffer[0] == 0 then []
    else [buffer[0]] + Text(buffer[1..])
  }

  lemma {:induction false} TextOfPadded(s: CString, rest: seq<Byte>)
    requires rest != [] ==> rest[0] == 0
    ensures Text(s + rest) == s
  {
    if s == [] {
      assert s + rest == rest;
    } else {
      assert (s + rest)[1..] == s[1..] + rest;
      TextOfPadded(s[1..], rest);
    }
  }

  method Strlen(str: CString) returns (len: int)
    ensures len == if |str| <= REALISTIC_STRLEN then |str| else -ENOMEM
  {
    len := 0;
    while At(str, len) != 0
      invariant 0 <= len <= |str| && len <= REALISTIC_STRLEN
      decreases |str| - len
    {
      len := len + 1;
      if len > REALISTIC_STRLEN {
        return -ENOMEM;
      }
    }
  }

  method Strnlen(str: CString, maxlen: int) returns (len: int)
    ensures maxlen < 0 ==> len == -EINVARG
    ensures maxlen >= 0 ==> len == if |str| <= maxlen && |str| <= REALISTIC_STRLEN then |str| else maxlen
  {
    if maxlen < 0 {
      return -EINVARG;
    }
    len := Strlen(str);
    if len > maxlen || len == -ENOMEM {
      return maxlen;
    }
  }

  const CHAR_0: Byte := 48
  const CHAR_9: Byte := 57

  predicate IsDigit(c: Byte) {
    !(c < CHAR_0 || c > CHAR_9)
  }

  function ToNumericDigit(c: Byte): int {
    if !IsDigit(c) then -EINVARG else c - CHAR_0
  }

  function ToLower(c: Byte): Byte {
    if 65 <= c <= 90 then c + 32 else c
  }

  /** Equal up to ASCII case. */
  predicate SameFold(a: seq<Byte>, b: seq<Byte>) {
    |a| == |b| && forall i | 0 <= i < |a| :: ToLower(a[i]) == ToLower(b[i])
  }

  /** Two bytes fold alike exactly when they are equal or are the upper- and
      lower-case form of one ASCII letter. */
  lemma FoldAlikeIff(a: Byte, b: Byte)
    ensures ToLower(a) == ToLower(b) <==>
      a == b || (65 <= a <= 90 && b == a + 32) || (65 <= b <= 90 && a == b + 32)
  {
  }

  lemma SameFoldIsEquivalence(a: seq<Byte>, b: seq<Byte>, c: seq<Byte>)
    ensures SameFold(a, a)
    ensures SameFold(a, b) ==> SameFold(b, a)
    ensures SameFold(a, b) && SameFold(b, c) ==> SameFold(a, c)
  {
  }

  /** The string with every ASCII letter in upper case. */
  function Upper(s: seq<Byte>): (u: seq<Byte>)
    ensures |u| == |s|
    ensures forall i | 0 <= i < |s| :: u[i] == if 97 <= s[i] <= 122 then s[i] - 32 else s[i]
  {
    seq(|s|, i requires 0 <= i < |s| => if 97 <= s[i] <= 122 then s[i] - 32 else s[i])
  }

  lemma UpperIsSame(s: seq<Byte>)
    ensures SameFold(Upper(s), s)
  {
    hide ToLower, Upper;
    forall i | 0 <= i < |s| ensures ToLower(Upper(s)[i]) == ToLower(s[i]) {
      FoldAlikeIff(Upper(s)[i], s[i]);
    }
  }

  /** The letters of ASCII. */
  predicate IsLetter(c: Byte) {
    65 <= c <= 90 || 97 <= c <= 122
  }

  /** Strings that differ in a byte that is no letter are different in any case. */
  lemma NonLettersMatter(a: seq<Byte>, b: seq<Byte>, i: nat)
    requires i < |a| && i < |b| && a[i] != b[i] && !IsLetter(a[i])
    ensures !SameFold(a, b)
  {
    hide ToLower;
    FoldAlikeIff(a[i], b[i]);
  }

  /** Folding decides equality exactly: two strings are the same up to case exactly
      when their upper-case forms are equal. */
  lemma SameFoldIff(a: seq<Byte>, b: seq<Byte>)
    ensures SameFold(a, b) <==> Upper(a) == Upper(b)
  {
    hide ToLower, Upper;
    if Upper(a) == Upper(b) {
      forall i | 0 <= i < |a| ensures ToLower(a[i]) == ToLower(b[i]) {
        assert Upper(a)[i] == Upper(b)[i];
        FoldAlikeIff(a[i], b[i]);
      }
    }
    if SameFold(a, b) {
      forall i | 0 <= i < |a| ensures Upper(a)[i] == Upper(b)[i] {
        FoldAlikeIff(a[i], b[i]);
      }
      assert Upper(a) == Upper(b);
    }
  }

  /** The bytes of a text. */
  function Ascii(s: string): (bytes: seq<Byte>)
    ensures |bytes| == |s|
  {
    seq(|s|, i requires 0 <= i < |s| => (s[i] as int) % 256)
  }

  /** The digits are the ten characters, each with its own value. */
  lemma DigitsAre(c: Byte)
    ensures IsDigit(c) <==> exists d :: 0 <= d < 10 && Ascii("0123456789")[d] == c
    ensures forall d | 0 <= d < 10 :: ToNumericDigit(Ascii("0123456789")[d]) == d
    ensures IsLetter(c) ==> ToNumericDigit(c) == -EINVARG
  {
    var digits := Ascii("0123456789");
    assert forall d | 0 <= d < 10 :: digits[d] == 48 + d;
    if IsDigit(c) {
      assert digits[c - 48] == c;
    }
  }

  function Clip(s: seq<Byte>, n: nat): (r: seq<Byte>)
    ensures r <= s && |r| == if |s| < n then |s| else n
  {
    if |s| < n then s else s[..n]
  }

  /** Reading at most n bytes of the buffer stays inside it. */
  predicate Readable(buffer: seq<Byte>, n: nat) {
    n <= |buffer| || |Text(buffer)| < |buffer|
  }

  /** istrncmp: zero exactly when the strings agree, up to case, on their first
      n bytes. */
  method Istrncmp(s1: seq<Byte>, s2: seq<Byte>, n: nat) returns (res: int)
    requires Readable(s1, n) && Readable(s2, n)
    ensures res == 0 <==> SameFold(Clip(Text(s1), n), Clip(Text(s2), n))
  {
    hide Text, Clip, SameFold;
    ghost var t1, t2 := Text(s1), Text(s2);
    var i := 0;
    while i < n
      invariant 0 <= i <= n && i <= |t1| && i <= |t2|
      invariant Agree(t1, t2, i)
    {
      var u1: int, u2: int := s1[i], s2[i];
      assert u1 == At(t1, i) && u2 == At(t2, i);
      if u1 != u2 && ToLower(u1) != ToLower(u2) {
        DifferAt(t1, t2, n, i);
        return u1 - u2;
      }
      if u1 == 0 {
        AgreeToEnd(t1, t2, n, i);
        return 0;
      }
      i := i + 1;
    }
    AgreeToEnd(t1, t2, n, i);
    return 0;
  }

  predicate Agree(t1: CString, t2: CString, i: nat)
    requires i <= |t1| && i <= |t2|
  {
    forall k | 0 <= k < i :: ToLower(t1[k]) == ToLower(t2[k])
  }

  lemma AgreeToEnd(t1: CString, t2: CString, n: nat, i: nat)
    requires i <= n && i <= |t1| && i <= |t2| && Agree(t1, t2, i)
    requires i == n || i == |t1| == |t2|
    ensures SameFold(Clip(t1, n), Clip(t2, n))
  {
  }

  lemma DifferAt(t1: CString, t2: CString, n: nat, i: nat)
    requires i < n && i <= |t1| && i <= |t2| && ToLower(At(t1, i)) != ToLower(At(t2, i))
    ensures !SameFold(Clip(t1, n), Clip(t2, n))
  {
    var c1, c2 := Clip(t1, n), Clip(t2, n);
    if |c1| == |c2| {
      assert i < |c1| && c1[i] == t1[i] && c2[i] == t2[i];
    }
  }

  /** With a short first string a bounded comparison is full equality. */
  lemma ShortCompareIsEquality(a: seq<Byte>, b: seq<Byte>, n: nat)
    requires |a| < n
    ensures SameFold(Clip(a, n), Clip(b, n)) <==> SameFold(a, b)
  {
  }
}
