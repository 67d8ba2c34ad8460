/**
 * Adler-32, as defined in section 2.2 of RFC 1950, computed in two ways: with
 * blocks of 5550 bytes and partial folding, and with blocks of 5552 bytes, a
 * loop unrolled sixteen times and a division per block.
 */
module AdlerChecksum {
  import opened RunningSums
  import opened Serialization

  const BASE := 65521

  /** The two sums in one word, the second in the upper half. */
  function Pack(s: Pair): (x: nat)
    requires s.0 < P16 && s.1 < P16
    ensures x < P32 && x % P16 == s.0 && x / P16 == s.1
  {
    s.1 * P16 + s.0
  }

  function Unpack(x: nat): (s: Pair)
    requires x < P32
    ensures s.0 < P16 && s.1 < P16 && Pack(s) == x && s == (x % P16, x / P16)
  {
    (x % P16, x / P16)
  }

  /** The sums of RFC 1950 going on from a checksum, a byte at a time. */
  function Continue(adler: nat, data: bytes): (r: nat)
    requires adler < P32
  {
    Pack(Reduced(Adler, Unpack(adler), data, |data|))
  }

  /** The checksum of RFC 1950: the sums start at 1 and 0. */
  function Checksum(data: bytes): nat {
    Continue(1, data)
  }

  /** What the dividing program computes: an empty input changes nothing. */
  function Divided(adler: nat, data: bytes): nat
    requires adler < P32
  {
    if data == [] then adler else Continue(adler, data)
  }

  /** Both halves are residues. */
  predicate IsChecksum(adler: nat) {
    adler < P32 && Unpack(adler).0 < BASE && Unpack(adler).1 < BASE
  }

  // ----- How long a block may be -----

  lemma MostBound(s: Pair, t: Pair, n: nat, k: nat)
    requires s.0 <= t.0 && s.1 <= t.1 && n <= k
    ensures Most(s, 255, n).0 <= Most(t, 255, k).0 && Most(s, 255, n).1 <= Most(t, 255, k).1
  {
    ProductBound(s.0, t.0, n, k);
    TriangleBound(n, k);
  }

  /** With reduced sums before it, 5552 is the longest block that cannot overflow. */
  lemma LongestDividedBlock(n: nat)
    ensures Most((BASE - 1, BASE - 1), 255, n).1 < P32 <==> n <= 5552
  {
    TriangleIs(5552);
    TriangleIs(5553);
    if n <= 5552 {
      MostBound((BASE - 1, BASE - 1), (BASE - 1, BASE - 1), n, 5552);
    } else {
      MostBound((BASE - 1, BASE - 1), (BASE - 1, BASE - 1), 5553, n);
    }
  }

  /** With folded sums before it, 5550 is the longest block that cannot overflow. */
  lemma LongestFoldedBlock(n: nat)
    ensures Most((0x1013a, 0xfff87), 255, n).1 < P32 <==> n <= 5550
  {
    TriangleIs(5550);
    TriangleIs(5551);
    if n <= 5550 {
      MostBound((0x1013a, 0xfff87), (0x1013a, 0xfff87), n, 5550);
    } else {
      MostBound((0x1013a, 0xfff87), (0x1013a, 0xfff87), 5551, n);
    }
  }

  /** Even sums that are not reduced leave room for 5552 bytes. */
  lemma DividedBlockFits(s: Pair, n: nat)
    requires s.0 < P16 && s.1 < P16 && n <= 5552
    ensures Most(s, 255, n).0 < P32 && Most(s, 255, n).1 < P32
  {
    TriangleIs(5552);
    MostBound(s, (0xffff, 0xffff), n, 5552);
  }

  lemma FoldedBlockFits(s: Pair, n: nat)
    requires s.0 <= 0x1013a && s.1 <= 0xfff87 && n <= 5550
    ensures Most(s, 255, n).0 <= 1481100 && Most(s, 255, n).1 <= 4294542330
  {
    TriangleIs(5550);
    MostBound(s, (0x1013a, 0xfff87), n, 5550);
  }

  // ----- Folding -----

  /** 65536 is 15 modulo the base. */
  function Fold(x: nat): nat {
    x % P16 + x / P16 * 15
  }

  lemma FoldAgrees(x: nat)
    ensures Mod(Adler, Fold(x)) == Mod(Adler, x)
  {
    ShiftAdler(Fold(x), x / P16);
  }

  /** The bounds after a block: a single subtraction reduces the first sum, and a fold and one the second. */
  lemma FoldBounds(x: nat)
    ensures x <= 1481100 ==> Fold(x) <= 0x1013a < 2 * BASE
    ensures x <= 4294542330 ==> Fold(x) <= 0xfff87
    ensures x <= 0xfff87 ==> Fold(x) < 2 * BASE
  {
  }

  lemma SubtractOnce(x: nat)
    requires x < 2 * BASE
    ensures Mod(Adler, x) == if x >= BASE then x - BASE else x
  {
  }

  // ----- The two programs -----

  lemma BytesAreSmall(data: bytes)
    ensures forall j :: 0 <= j < |data| ==> data[j] <= 255
  {
  }

  /** Adds a block byte by byte. */
  method AddBytes(s: Pair, data: seq<nat>, i: nat, n: nat) returns (r: Pair)
    requires i + n <= |data|
    ensures r == Sums(s, data, i, n)
  {
    r := s;
    for k := 0 to n
      invariant r == Sums(s, data, i, k)
    {
      SumsCompose(s, data, i, k, 1);
      r := AddOne(r, data, i + k);
    }
  }

  /** Blocks of 5550 bytes with partial folding. */
  method UpdateFolding(adler: nat, data: bytes) returns (r: nat)
    requires adler < P32
    ensures r == Continue(adler, data)
  {
    hide Most, Fold, Mod, Sums, Unwrapped;
    var s: Pair := Unpack(adler);
    ghost var s0 := s;
    var i := 0;
    BytesAreSmall(data);
    while i < |data|
      invariant 0 <= i <= |data| && s.0 <= 0x1013a && s.1 <= 0xfff87
      invariant ModPair(Adler, s) == Reduced(Adler, s0, data, i)
    {
      var n := if |data| - i > 5550 then 5550 else |data| - i;
      FoldedBlockFits(s, n);
      BlockExact(Adler, s0, s, data, i, n, 255);
      s := AddBytes(s, data, i, n);
      FoldBounds(s.0);
      FoldBounds(s.1);
      FoldAgrees(s.0);
      FoldAgrees(s.1);
      s := (Fold(s.0), Fold(s.1));
      i := i + n;
    }
    r := Subtracted(s);
  }

  /** The last reduction of the folding program. */
  method Subtracted(s: Pair) returns (r: nat)
    requires s.0 <= 0x1013a && s.1 <= 0xfff87
    ensures r == Pack(ModPair(Adler, s))
  {
    FoldBounds(s.1);
    FoldAgrees(s.1);
    var a, b := s.0, s.1;
    SubtractOnce(a);
    if a >= BASE {
      a := a - BASE;
    }
    b := Fold(b);
    SubtractOnce(b);
    if b >= BASE {
      b := b - BASE;
    }
    r := Pack((a, b));
  }

  /** Blocks of 5552 bytes, unrolled, with a division per block. */
  method UpdateDividing(adler: nat, data: bytes) returns (r: nat)
    requires adler < P32
    ensures r == Divided(adler, data)
  {
    hide Most, Sums, Unwrapped;
    var s: Pair := Unpack(adler);
    ghost var s0 := s;
    var i := 0;
    BytesAreSmall(data);
    while i < |data|
      invariant 0 <= i <= |data| && s.0 < P16 && s.1 < P16
      invariant ModPair(Adler, s) == Reduced(Adler, s0, data, i)
      invariant if i == 0 then s == s0 else s == ModPair(Adler, s)
    {
      var n := if |data| - i > 5552 then 5552 else |data| - i;
      DividedBlockFits(s, n);
      BlockExact(Adler, s0, s, data, i, n, 255);
      s := AddBlock(s, data, i, n);
      ModIdempotent(Adler, s.0);
      ModIdempotent(Adler, s.1);
      s := (s.0 % BASE, s.1 % BASE);
      i := i + n;
    }
    r := Pack(s);
  }

  method Adler32Folding(data: bytes) returns (r: nat)
    ensures r == Checksum(data)
  {
    r := UpdateFolding(1, data);
  }

  method Adler32Dividing(data: bytes) returns (r: nat)
    ensures r == Checksum(data)
  {
    r := UpdateDividing(1, data);
    ContinueNothing(1);
  }

  // ----- The checksum of a concatenation -----

  lemma UnpackPack(s: Pair)
    requires s.0 < P16 && s.1 < P16
    ensures Unpack(Pack(s)) == s
  {
  }

  lemma ContinueIsChecksum(adler: nat, data: bytes)
    requires adler < P32
    ensures IsChecksum(Continue(adler, data))
  {
    UnpackPack(Reduced(Adler, Unpack(adler), data, |data|));
  }

  /** Going on with nothing keeps exactly the words that are checksums. */
  lemma ContinueNothing(adler: nat)
    requires adler < P32
    ensures Continue(adler, []) == adler <==> IsChecksum(adler)
  {
    ContinueIsChecksum(adler, []);
  }

  /** Going on with `y` from the checksum of `x` gives the checksum of both. */
  lemma ContinueConcat(adler: nat, x: bytes, y: bytes)
    requires adler < P32
    ensures Continue(adler, x + y) == Continue(Continue(adler, x), y)
  {
    UnpackPack(Reduced(Adler, Unpack(adler), x, |x|));
    ReducedConcat(Adler, Unpack(adler), x, y, |y|);
  }

  /** Both programs update the checksum of `x` with `y` to the checksum of both together. */
  lemma UpdateIsConcat(x: bytes, y: bytes)
    ensures Continue(Checksum(x), y) == Checksum(x + y)
    ensures Divided(Checksum(x), y) == Checksum(x + y)
  {
    ContinueConcat(1, x, y);
    ContinueIsChecksum(1, x);
    ContinueNothing(Checksum(x));
  }

  /** The two programs agree exactly when there is input or the word they start from is a checksum. */
  lemma ProgramsAgreeExactly(adler: nat, data: bytes)
    requires adler < P32
    ensures Divided(adler, data) == Continue(adler, data) <==> data != [] || IsChecksum(adler)
  {
    ContinueNothing(adler);
  }

  /** On a word that is not reduced and no input, the two programs differ. */
  lemma ProgramsDiffer()
    ensures Divided(BASE, []) == BASE && Continue(BASE, []) == 0
  {
  }

  /**
   * Section 2.2 of RFC 1950: the lower half is one more than the sum of the
   * bytes, the upper half the sum of all values that the lower half takes, both
   * modulo 65521.
   */
  lemma ChecksumIs(data: bytes)
    ensures Checksum(data) % P16 == (1 + PlainSum(data, |data|)) % BASE
    ensures Checksum(data) / P16 == (|data| + WeightedSum(data, |data|, |data|)) % BASE
  {
    ReducedIs(Adler, (1, 0), data, |data|);
    assert Unpack(1) == (1, 0);
  }

  /** No byte, and two. */
  lemma ShortChecksums()
    ensures Checksum([]) == 1 && Checksum([1, 2]) == 0x0006_0004
  {
    var data: bytes := [1, 2];
    assert Reduced(Adler, (1, 0), data, 0) == (1, 0) && Reduced(Adler, (1, 0), data, 1) == (2, 2);
    assert Reduced(Adler, (1, 0), data, 2) == (4, 6);
    assert Unpack(1) == (1, 0) && Reduced(Adler, (1, 0), [], 0) == (1, 0);
  }
}
