/** A byte array with a cursor: what an open file is to its users
    (src/fs/fat/fat16.c, fat16_read and fat16_seek). */
module CursorModel {
  import opened Machine

  const SEEK_SET := 0
  const SEEK_CUR := 1
  const SEEK_END := 2

  /** Whole items of this size between the cursor and the end, at most nmemb. */
  function Items(length: nat, pos: nat, size: nat, nmemb: nat): (k: nat)
    requires pos <= length && size > 0
    ensures k <= nmemb
  {
    var left := Quot(length - pos, size);
    if nmemb < left then nmemb else left
  }

  /** The number of items is the largest that fits. */
  lemma ItemsIsLargest(length: nat, pos: nat, size: nat, nmemb: nat)
    requires pos <= length && size > 0
    ensures var k := Items(length, pos, size, nmemb);
      && pos + k * size <= length
      && (k < nmemb ==> length < pos + (k + 1) * size)
  {
    var left := Quot(length - pos, size);
    var k := Items(length, pos, size, nmemb);
    QuotRem(length - pos, size);
    assert (left + 1) * size == left * size + size;
    ProductMonotone(k, left, size);
  }

  lemma ProductMonotone(a: nat, b: nat, d: nat)
    requires a <= b
    ensures a * d <= b * d
  {
  }

  /** The bytes those items take. */
  function ItemBytes(length: nat, pos: nat, size: nat, nmemb: nat): (n: nat)
    requires pos <= length && size > 0
    ensures pos + n <= length
    ensures n == 0 <==> Items(length, pos, size, nmemb) == 0
  {
    ItemsIsLargest(length, pos, size, nmemb);
    Items(length, pos, size, nmemb) * size
  }

  datatype Op = Read(size: U32, nmemb: U32) | Seek(offset: U32, mode: nat)

  /** The result code, the bytes delivered and the new cursor of one call. */
  datatype Step = Step(res: int, bytes: seq<Byte>, pos: nat)

  /** Result code and new cursor of a seek in a file of this length. A seek that
      fails does not move the cursor, and none moves it past the end. */
  function SeekStep(length: nat, pos: nat, offset: U32, mode: nat): (r: (int, nat))
    ensures r.0 != 0 ==> r.1 == pos
    ensures r.0 == 0 ==> r.1 <= length
  {
    if mode == SEEK_SET then if offset > length then (-EIO, pos) else (0, offset)
    else if mode == SEEK_CUR then if pos > length || offset > length - pos then (-EIO, pos) else (0, pos + offset)
    else if mode == SEEK_END then (-EUNIMP, pos)
    else (-EINVARG, pos)
  }

  /** Two relative seeks are one by the sum. */
  lemma RelativeSeeksAdd(length: nat, pos: nat, a: U32, b: U32)
    requires pos <= length && a + b < U32_LIMIT
    ensures var first, both := SeekStep(length, pos, a, SEEK_CUR), SeekStep(length, pos, a + b, SEEK_CUR);
      && (both.0 == 0 <==> first.0 == 0 && SeekStep(length, first.1, b, SEEK_CUR).0 == 0)
      && (both.0 == 0 ==> SeekStep(length, first.1, b, SEEK_CUR) == both && both.1 == pos + a + b)
  {
  }

  function Apply(content: seq<Byte>, pos: nat, op: Op): (s: Step)
    requires pos <= |content|
    ensures s.pos <= |content|
  {
    match op
    case Read(size, nmemb) =>
      if size == 0 || nmemb == 0 then Step(0, [], pos)
      else
        var n := ItemBytes(|content|, pos, size, nmemb);
        Step(Items(|content|, pos, size, nmemb), content[pos..pos + n], pos + n)
    case Seek(offset, mode) =>
      var r := SeekStep(|content|, pos, offset, mode);
      Step(r.0, [], r.1)
  }

  /** A run of calls and everything it returns. */
  function Run(content: seq<Byte>, pos: nat, ops: seq<Op>): (r: (seq<Step>, nat))
    requires pos <= |content|
    ensures |r.0| == |ops| && r.1 <= |content|
    decreases |ops|
  {
    if ops == [] then ([], pos)
    else
      var init := Run(content, pos, ops[..|ops| - 1]);
      var s := Apply(content, init.1, ops[|ops| - 1]);
      (init.0 + [s], s.pos)
  }

  /** Reading n1 items and then n2 is reading n1 + n2: the same bytes, the same
      count, the same cursor. */
  lemma ReadsCompose(content: seq<Byte>, pos: nat, size: U32, n1: U32, n2: U32)
    requires pos <= |content| && size > 0 && n1 > 0 && n2 > 0 && n1 + n2 < U32_LIMIT
    ensures var a := Apply(content, pos, Read(size, n1));
      var b := Apply(content, a.pos, Read(size, n2));
      var whole := Apply(content, pos, Read(size, n1 + n2));
      && a.bytes + b.bytes == whole.bytes
      && a.res + b.res == whole.res
      && b.pos == whole.pos
  {
    hide Quot, Items, ItemBytes;
    var length := |content|;
    ItemsSplit(length, pos, size, n1, n2);
    var mid := pos + ItemBytes(length, pos, size, n1);
    SliceJoin(content, pos, mid, pos + ItemBytes(length, pos, size, n1 + n2));
  }

  /** Reading k items leaves the cursor where a relative seek over them does. */
  lemma ReadMovesLikeSeek(content: seq<Byte>, pos: nat, size: U32, nmemb: U32)
    requires pos <= |content| < U32_LIMIT && size > 0 && nmemb > 0
    ensures var k := Items(|content|, pos, size, nmemb);
      && k * size < U32_LIMIT
      && Apply(content, pos, Seek(k * size, SEEK_CUR)) == Step(0, [], Apply(content, pos, Read(size, nmemb)).pos)
      && Apply(content, pos, Read(size, nmemb)).res == k
      && |Apply(content, pos, Read(size, nmemb)).bytes| == k * size
  {
    hide Items;
    ItemsIsLargest(|content|, pos, size, nmemb);
  }

  lemma SliceJoin(s: seq<Byte>, a: nat, b: nat, c: nat)
    requires a <= b <= c <= |s|
    ensures s[a..b] + s[b..c] == s[a..c]
  {
  }

  lemma ItemsSplit(length: nat, pos: nat, size: nat, n1: nat, n2: nat)
    requires pos <= length && size > 0
    ensures var b1 := ItemBytes(length, pos, size, n1);
      && Items(length, pos, size, n1) + Items(length, pos + b1, size, n2) == Items(length, pos, size, n1 + n2)
      && b1 + ItemBytes(length, pos + b1, size, n2) == ItemBytes(length, pos, size, n1 + n2)
  {
    var k1 := Items(length, pos, size, n1);
    QuotMinus(length - pos, k1, size);
    var k2 := Items(length, pos + k1 * size, size, n2);
    Distribute(k1, k2, size);
  }

  lemma Distribute(a: nat, b: nat, d: nat)
    ensures (a + b) * d == a * d + b * d
  {
  }

  /** Taking k whole units off lowers the quotient by k. */
  lemma {:induction false} QuotMinus(x: nat, k: nat, d: nat)
    requires d > 0 && k <= Quot(x, d)
    ensures k * d <= x && Quot(x - k * d, d) == Quot(x, d) - k
    decreases k
  {
    if k > 0 {
      QuotMinus(x - d, k - 1, d);
      assert k * d == (k - 1) * d + d;
    }
  }
}
