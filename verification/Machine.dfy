/** Machine-level vocabulary shared by every component: the integer widths of
    the 32-bit kernel, its error codes, and bitwise operations on words. */
module Machine {

  const U32_LIMIT := 0x1_0000_0000

  type Byte = x: int | 0 <= x < 256
  type U32 = x: int | 0 <= x < 0x1_0000_0000

  // src/status.h: every function returns the negated code.
  const ALL_OK := 0
  const EIO := 1
  const EINVARG := 2
  const ENOMEM := 3
  const EBADPATH := 4
  const EFSNOTUS := 5
  const ERDONLY := 6
  const EUNIMP := 7

  const INT32_MAX := 0x7FFF_FFFF
  const SECTOR_SIZE := 512
  const MAX_PATH := 108

  datatype Option<+T> = None | Some(value: T)

  /** A part of a part is a part of the whole. */
  lemma SliceOfSlice<T>(s: seq<T>, from: nat, to: nat, i: nat, j: nat)
    requires from <= to <= |s| && i <= j <= to - from
    ensures s[from..to][i..j] == s[from + i..from + j]
  {
    var inner, whole := s[from..to][i..j], s[from + i..from + j];
    assert |inner| == |whole| == j - i;
    forall x | 0 <= x < j - i ensures inner[x] == whole[x] {
      assert inner[x] == s[from..to][i + x] == s[from + (i + x)];
    }
  }

  predicate IsInt32(x: int) {
    -0x8000_0000 <= x < 0x8000_0000
  }

  /** Conversion to `uint32_t`: the value modulo 2^32. */
  function ToU32(x: int): (u: U32) {
    x % U32_LIMIT
  }

  /** Conversion to `int`: the representative modulo 2^32 in the signed range. */
  function ToInt32(x: int): (i: int)
    ensures IsInt32(i)
  {
    var u := ToU32(x);
    if u < 0x8000_0000 then u else u - U32_LIMIT
  }

  lemma ToU32Congruent(a: int, b: int)
    ensures ToU32(ToU32(a) + b) == ToU32(a + b)
  {
    var q := a / U32_LIMIT;
    var r := (ToU32(a) + b) / U32_LIMIT;
    assert a + b == (q + r) * U32_LIMIT + ToU32(ToU32(a) + b);
  }

  lemma SignedRoundTrip(a: int)
    ensures ToU32(ToInt32(a)) == ToU32(a)
  {
  }

  /** Bitwise AND of two words, bit by bit. */
  function BitAnd(a: nat, b: nat): (r: nat)
    decreases a
  {
    if a == 0 then 0 else (if a % 2 == 1 && b % 2 == 1 then 1 else 0) + 2 * BitAnd(a / 2, b / 2)
  }

  /** Bitwise OR of two words, bit by bit. */
  function BitOr(a: nat, b: nat): (r: nat)
    decreases a + b
  {
    if a == 0 && b == 0 then 0
    else (if a % 2 == 1 || b % 2 == 1 then 1 else 0) + 2 * BitOr(a / 2, b / 2)
  }

  function Pow2(k: nat): (p: nat)
    ensures p >= 1
  {
    if k == 0 then 1 else 2 * Pow2(k - 1)
  }

  /** The k-th binary digit. */
  predicate Bit(x: nat, k: nat) {
    x / Pow2(k) % 2 == 1
  }

  lemma BitStep(x: nat, k: nat)
    requires k > 0
    ensures Bit(x, k) <==> Bit(x / 2, k - 1)
  {
    var p := Pow2(k - 1);
    var q, r := x / 2 / p, x / 2 % p;
    assert x / 2 == q * p + r;
    assert x == q * (2 * p) + (2 * r + x % 2);
    DivModUnique(x, 2 * p, q, 2 * r + x % 2);
  }

  /** AND and OR of words are those of their binary digits. */
  lemma {:induction false} AndOrBits(a: nat, b: nat, k: nat)
    ensures Bit(BitAnd(a, b), k) <==> Bit(a, k) && Bit(b, k)
    ensures Bit(BitOr(a, b), k) <==> Bit(a, k) || Bit(b, k)
    decreases k
  {
    AndHalves(a, b);
    if k > 0 {
      hide BitAnd, BitOr, Bit;
      BitStep(a, k);
      BitStep(b, k);
      BitStep(BitAnd(a, b), k);
      BitStep(BitOr(a, b), k);
      AndOrBits(a / 2, b / 2, k - 1);
    }
  }

  lemma AndHalves(a: nat, b: nat)
    ensures BitAnd(a, b) / 2 == BitAnd(a / 2, b / 2) && (BitAnd(a, b) % 2 == 1 <==> a % 2 == 1 && b % 2 == 1)
    ensures BitOr(a, b) / 2 == BitOr(a / 2, b / 2) && (BitOr(a, b) % 2 == 1 <==> a % 2 == 1 || b % 2 == 1)
  {
  }

  /** Or-ing low bits into a word only affects its low bits. */
  lemma {:induction false} OrLowBits(a: nat, b: nat, c: nat, k: nat)
    requires b < Pow2(k) && c < Pow2(k)
    requires a % Pow2(k) == 0
    ensures BitOr(b, c) < Pow2(k)
    ensures BitOr(a + b, c) == a + BitOr(b, c)
    decreases k
  {
    if k == 0 {
      OrZero(a);
    } else {
      HalfMod(a, Pow2(k - 1));
      assert (a + b) / 2 == a / 2 + b / 2;
      OrLowBits(a / 2, b / 2, c / 2, k - 1);
    }
  }

  lemma {:induction false} OrZero(a: nat)
    ensures BitOr(a, 0) == a && BitOr(0, a) == a
    decreases a
  {
    if a > 0 {
      OrZero(a / 2);
    }
  }

  /** Quotient and remainder are determined by the division equation. */
  lemma DivModUnique(x: int, d: int, q: int, r: int)
    requires d > 0 && x == q * d + r && 0 <= r < d
    ensures x / d == q && x % d == r
  {
    var q' := x / d;
    var r' := x % d;
    assert x == q' * d + r';
    assert (q - q') * d == r' - r;
    NoMultipleBetween(q - q', d);
  }

  lemma NoMultipleBetween(k: int, d: int)
    requires d > 0
    ensures k >= 1 ==> k * d >= d
    ensures k <= -1 ==> k * d <= -d
  {
    if k >= 1 {
      assert k * d == (k - 1) * d + d;
    } else if k <= -1 {
      assert k * d == (k + 1) * d - d;
    }
  }

  /** n one bits followed by k zero bits. */
  function HighMask(n: nat, k: nat): nat {
    if k == 0 then Pow2(n) - 1 else 2 * HighMask(n, k - 1)
  }

  /** Masking away the low k bits of a (n+k)-bit word rounds it down. */
  lemma {:induction false} AndHighMask(x: nat, n: nat, k: nat)
    requires x < Pow2(n + k)
    ensures BitAnd(x, HighMask(n, k)) == x - x % Pow2(k)
    decreases k
  {
    if k == 0 {
      AndAllOnes(x, n);
    } else {
      hide BitAnd;
      AndEven(x, HighMask(n, k - 1));
      AndHighMask(x / 2, n, k - 1);
      HalfMod(x, Pow2(k - 1));
    }
  }

  lemma {:induction false} AndEven(x: nat, m: nat)
    ensures BitAnd(x, 2 * m) == 2 * BitAnd(x / 2, m)
  {
    assert (2 * m) / 2 == m && (2 * m) % 2 == 0;
  }

  lemma HalfMod(x: nat, p: nat)
    requires p > 0
    ensures x % (2 * p) == 2 * ((x / 2) % p) + x % 2
  {
    var q, r := (x / 2) / p, (x / 2) % p;
    assert x / 2 == q * p + r;
    assert x == q * (2 * p) + (2 * r + x % 2);
    DivModUnique(x, 2 * p, q, 2 * r + x % 2);
  }

  lemma {:induction false} AndAllOnes(x: nat, n: nat)
    requires x < Pow2(n)
    ensures BitAnd(x, Pow2(n) - 1) == x
    decreases n
  {
    if x > 0 {
      var p := Pow2(n - 1);
      HalfOfOnes(p);
      assert Pow2(n) == 2 * p && x / 2 < p;
      AndAllOnes(x / 2, n - 1);
      assert BitAnd(x, 2 * p - 1) == x % 2 + 2 * BitAnd(x / 2, p - 1);
    }
  }

  lemma HalfOfOnes(p: nat)
    requires p > 0
    ensures (2 * p - 1) / 2 == p - 1 && (2 * p - 1) % 2 == 1
  {
  }

  // ------------------------------------- division by a size only known at run
  // time, in a form whose proofs need no nonlinear arithmetic

  function Quot(x: nat, d: nat): nat
    requires d > 0
  {
    if x < d then 0 else 1 + Quot(x - d, d)
  }

  function Rem(x: nat, d: nat): (r: nat)
    requires d > 0
    ensures r < d
  {
    if x < d then x else Rem(x - d, d)
  }

  lemma {:induction false} QuotRem(x: nat, d: nat)
    requires d > 0
    ensures x == Quot(x, d) * d + Rem(x, d)
  {
    if x >= d {
      QuotRem(x - d, d);
      assert Quot(x, d) * d == Quot(x - d, d) * d + d;
    }
  }

  lemma QuotIsDivision(x: nat, d: nat)
    requires d > 0
    ensures Quot(x, d) == x / d && Rem(x, d) == x % d
  {
    QuotRem(x, d);
    DivModUnique(x, d, Quot(x, d), Rem(x, d));
  }

  lemma {:induction false} QuotMonotone(a: nat, b: nat, d: nat)
    requires a <= b && d > 0
    ensures Quot(a, d) <= Quot(b, d)
    decreases b
  {
    if a >= d {
      QuotMonotone(a - d, b - d, d);
    }
  }

  /** A step that stays inside one unit changes only the remainder. */
  lemma {:induction false} QuotStep(x: nat, n: nat, d: nat)
    requires d > 0 && Rem(x, d) + n < d
    ensures Quot(x + n, d) == Quot(x, d) && Rem(x + n, d) == Rem(x, d) + n
    decreases x
  {
    if x >= d {
      QuotStep(x - d, n, d);
    }
  }
}
