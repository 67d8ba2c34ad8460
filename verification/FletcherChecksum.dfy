/**
 * Fletcher-32 over 16-bit words, in blocks of 360 words that are folded once:
 * the halves of the result stand for the plain and the weighted sum of the
 * words modulo 65535.
 */
module FletcherChecksum {
  import opened RunningSums
  import opened Serialization

  /** Words of 16 bits. */
  type Word = w: nat | w < P16

  function BigEndian(high: byte, low: byte): Word {
    (high as int) * 256 + low as int
  }

  /** The big-endian words of some bytes; an odd byte at the end is the upper half of a word. */
  function Words(data: bytes): (ws: seq<Word>)
    ensures |ws| == (|data| + 1) / 2
    ensures forall k :: 0 <= k < |data| / 2 ==> ws[k] == (data[2 * k] as int) * 256 + data[2 * k + 1] as int
    ensures |data| % 2 == 1 ==> ws[|data| / 2] == (data[|data| - 1] as int) * 256
  {
    seq((|data| + 1) / 2, k requires 0 <= k < (|data| + 1) / 2 =>
      BigEndian(data[2 * k], if 2 * k + 1 < |data| then data[2 * k + 1] else 0))
  }

  // ----- The result -----

  /** The representative of a sum modulo 65535 that is not zero. */
  function Half(x: nat): (h: nat)
    ensures 1 <= h <= 65535 && h % 65535 == x % 65535
  {
    if x % 65535 == 0 then 65535 else x % 65535
  }

  /** The checksum of some words. */
  function Checksum(ws: seq<nat>): nat {
    Half(WeightedSum(ws, |ws|, |ws|)) * P16 + Half(PlainSum(ws, |ws|))
  }

  lemma ModZero()
    ensures Mod(Fletcher, 0) == 0 && Mod(Fletcher, 65535) == 0
  {
  }

  // ----- Blocks and folding -----

  /** The most a fold leaves of the first sum of a block of 360 words, and of any second sum. */
  const BOUND1 := 0xffff + 361
  const BOUND2 := 0xffff + 0xffff

  lemma MostBound(s: Pair, n: nat, k: nat)
    requires s.0 <= BOUND1 && s.1 <= BOUND2 && n <= k
    ensures Most(s, 0xffff, n).0 <= BOUND1 + k * 0xffff
    ensures Most(s, 0xffff, n).1 <= BOUND2 + k * BOUND1 + 0xffff * Triangle(k)
  {
    ProductBound(s.0, BOUND1, n, k);
    TriangleBound(n, k);
  }

  lemma BlockFits(s: Pair, n: nat)
    requires s.0 <= BOUND1 && s.1 <= BOUND2 && n <= 360
    ensures Most(s, 0xffff, n).0 <= BOUND1 + 360 * 0xffff && Most(s, 0xffff, n).1 < P32
  {
    TriangleIs(360);
    MostBound(s, n, 360);
  }

  /** From the initial sums, 360 is the largest number of words that cannot overflow. */
  lemma LongestBlock(n: nat)
    ensures Most((0xffff, 0xffff), 0xffff, n).1 < P32 <==> n <= 360
  {
    if n <= 360 {
      BlockFits((0xffff, 0xffff), n);
    } else {
      TriangleIs(361);
      TriangleBound(361, n);
    }
  }

  function Fold(x: nat): nat {
    x % P16 + x / P16
  }

  lemma FoldAgrees(x: nat)
    ensures Mod(Fletcher, Fold(x)) == Mod(Fletcher, x) && (x > 0 ==> Fold(x) > 0)
  {
    ShiftFletcher(Fold(x), x / P16);
  }

  lemma FoldBounds(x: nat)
    ensures x <= BOUND1 + 360 * 0xffff ==> Fold(x) <= BOUND1
    ensures x < P32 ==> Fold(x) <= BOUND2
    ensures x <= BOUND2 ==> Fold(x) <= 0xffff
  {
  }

  /** A folded sum of at most 16 bits is the half of the result. */
  lemma HalfIs(h: nat, x: nat)
    requires 0 < h <= 0xffff && Mod(Fletcher, h) == Mod(Fletcher, x)
    ensures h == Half(x)
  {
  }

  // ----- The programs -----

  /** Sums the first `n` words in blocks. */
  method SumBlocks(ws: seq<Word>, n: nat) returns (s: Pair)
    requires n <= |ws|
    ensures 0 < s.0 <= BOUND1 && 0 < s.1 <= BOUND2
    ensures ModPair(Fletcher, s) == Reduced(Fletcher, (0, 0), ws, n)
  {
    hide Most, Sums, Fold, Mod, Unwrapped;
    s := (0xffff, 0xffff);
    var i := 0;
    ModZero();
    while i < n
      invariant 0 <= i <= n && 0 < s.0 <= BOUND1 && 0 < s.1 <= BOUND2
      invariant ModPair(Fletcher, s) == Reduced(Fletcher, (0, 0), ws, i)
    {
      var k := if n - i > 360 then 360 else n - i;
      BlockFits(s, k);
      BlockExact(Fletcher, (0, 0), s, ws, i, k, 0xffff);
      s := AddBlock(s, ws, i, k);
      FoldAgrees(s.0);
      FoldAgrees(s.1);
      FoldBounds(s.0);
      FoldBounds(s.1);
      s := (Fold(s.0), Fold(s.1));
      i := i + k;
    }
  }

  /** The second fold, and the result. */
  method Finish(s: Pair, ghost ws: seq<nat>) returns (r: nat)
    requires 0 < s.0 <= BOUND2 && 0 < s.1 <= BOUND2
    requires ModPair(Fletcher, s) == Reduced(Fletcher, (0, 0), ws, |ws|)
    ensures r == Checksum(ws)
  {
    FoldAgrees(s.0);
    FoldAgrees(s.1);
    FoldBounds(s.0);
    FoldBounds(s.1);
    ReducedIs(Fletcher, (0, 0), ws, |ws|);
    HalfIs(Fold(s.0), PlainSum(ws, |ws|));
    HalfIs(Fold(s.1), WeightedSum(ws, |ws|, |ws|));
    r := Fold(s.1) * P16 + Fold(s.0);
  }

  /** The checksum of bytes that need not be aligned. */
  method Fletcher32(data: bytes) returns (r: nat)
    ensures r == Checksum(Words(data))
  {
    hide Words, Checksum, Fold, Mod, Reduced;
    var ws := Words(data);
    var s := SumBlocks(ws, |data| / 2);
    if |data| % 2 == 1 {
      s := AddOdd(s, data[|data| - 1], ws);
    }
    r := Finish(s, ws);
  }

  /** Adds an odd byte as the upper half of a last word, and folds. */
  method AddOdd(s: Pair, last: byte, ghost ws: seq<Word>) returns (r: Pair)
    requires 0 < s.0 <= BOUND1 && 0 < s.1 <= BOUND2 && ws != [] && ws[|ws| - 1] == BigEndian(last, 0)
    requires ModPair(Fletcher, s) == Reduced(Fletcher, (0, 0), ws, |ws| - 1)
    ensures 0 < r.0 <= BOUND2 && 0 < r.1 <= BOUND2
    ensures ModPair(Fletcher, r) == Reduced(Fletcher, (0, 0), ws, |ws|)
  {
    hide Mod;
    StepAgrees(Fletcher, s, BigEndian(last, 0));
    var sum1 := s.0 + BigEndian(last, 0);
    var sum2 := s.1 + sum1;
    FoldAgrees(sum1);
    FoldAgrees(sum2);
    FoldBounds(sum1);
    FoldBounds(sum2);
    r := (Fold(sum1), Fold(sum2));
  }

  /** The checksum of aligned words; the length counts words. */
  method Fletcher32Aligned(ws: seq<Word>) returns (r: nat)
    ensures r == Checksum(ws)
  {
    var s := SumBlocks(ws, |ws|);
    r := Finish(s, ws);
  }

  // ----- Laws -----

  /** An odd number of bytes has the checksum of the bytes padded with a zero. */
  lemma OddIsPadded(data: bytes)
    requires |data| % 2 == 1
    ensures Checksum(Words(data)) == Checksum(Words(data + [0]))
  {
    assert Words(data) == Words(data + [0]);
  }

  /** The halves of a checksum are never zero, and tell the two sums modulo 65535. */
  lemma HalvesTellSums(ws: seq<nat>)
    ensures var c := Checksum(ws);
            && 1 <= c % P16 <= 65535 && 1 <= c / P16 <= 65535
            && (c % P16) % 65535 == PlainSum(ws, |ws|) % 65535
            && (c / P16) % 65535 == WeightedSum(ws, |ws|, |ws|) % 65535
  {
    var h, l := Half(WeightedSum(ws, |ws|, |ws|)), Half(PlainSum(ws, |ws|));
    assert (h * P16 + l) / P16 == h && (h * P16 + l) % P16 == l;
  }

  /** Two bytes, and three. */
  lemma ShortChecksums()
    ensures Checksum(Words([1, 2])) == 0x0102_0102 && Checksum(Words([1, 2, 3])) == 0x0504_0402
  {
    var a, b := Words([1, 2]), Words([1, 2, 3]);
    assert a == [0x102] && b == [0x102, 0x300];
    assert PlainSum(a, 1) == PlainSum(a, 0) + 0x102 && WeightedSum(a, 1, 1) == WeightedSum(a, 1, 0) + 0x102;
    assert PlainSum(b, 1) == PlainSum(b, 0) + 0x102 && PlainSum(b, 2) == 0x402;
    assert WeightedSum(b, 2, 1) == WeightedSum(b, 2, 0) + 2 * 0x102 && WeightedSum(b, 2, 2) == 0x504;
  }
}
