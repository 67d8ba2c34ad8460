/**
 * The pair of running sums behind both checksums: every word is added to the
 * first sum, and the first sum to the second, in 32-bit words that wrap.
 */
module RunningSums {
  import opened Serialization

  type Pair = (nat, nat)

  function Add32(x: nat, y: nat): (z: nat)
    ensures z < P32
  {
    (x + y) % P32
  }

  function Step(s: Pair, w: nat): Pair {
    var a := Add32(s.0, w);
    (a, Add32(s.1, a))
  }

  /** The sums after `n` words from position `i` on. */
  function Sums(s: Pair, ws: seq<nat>, i: nat, n: nat): Pair
    requires i + n <= |ws|
    decreases n
  {
    if n == 0 then s else Step(Sums(s, ws, i, n - 1), ws[i + n - 1])
  }

  /** The same sums in numbers that never wrap. */
  function Unwrapped(s: Pair, ws: seq<nat>, i: nat, n: nat): Pair
    requires i + n <= |ws|
    decreases n
  {
    if n == 0 then s
    else
      var r, w := Unwrapped(s, ws, i, n - 1), ws[i + n - 1];
      (r.0 + w, r.1 + (r.0 + w))
  }

  lemma {:induction false} SumsCompose(s: Pair, ws: seq<nat>, i: nat, m: nat, n: nat)
    requires i + m + n <= |ws|
    ensures Sums(s, ws, i, m + n) == Sums(Sums(s, ws, i, m), ws, i + m, n)
    decreases n
  {
    if n > 0 {
      SumsCompose(s, ws, i, m, n - 1);
    }
  }

  lemma SumsNone(s: Pair, ws: seq<nat>, i: nat)
    requires i <= |ws|
    ensures Sums(s, ws, i, 0) == s
  {
  }

  /** A block of words is added with a loop that is unrolled sixteen times. */
  method AddOne(s: Pair, ws: seq<nat>, i: nat) returns (r: Pair)
    requires i < |ws|
    ensures r == Sums(s, ws, i, 1)
  {
    var a := Add32(s.0, ws[i]);
    r := (a, Add32(s.1, a));
    assert Sums(s, ws, i, 0) == s;
  }

  method AddTwo(s: Pair, ws: seq<nat>, i: nat) returns (r: Pair)
    requires i + 2 <= |ws|
    ensures r == Sums(s, ws, i, 2)
  {
    r := AddOne(s, ws, i);
    r := AddOne(r, ws, i + 1);
    SumsCompose(s, ws, i, 1, 1);
  }

  method AddFour(s: Pair, ws: seq<nat>, i: nat) returns (r: Pair)
    requires i + 4 <= |ws|
    ensures r == Sums(s, ws, i, 4)
  {
    r := AddTwo(s, ws, i);
    r := AddTwo(r, ws, i + 2);
    SumsCompose(s, ws, i, 2, 2);
  }

  method AddEight(s: Pair, ws: seq<nat>, i: nat) returns (r: Pair)
    requires i + 8 <= |ws|
    ensures r == Sums(s, ws, i, 8)
  {
    r := AddFour(s, ws, i);
    r := AddFour(r, ws, i + 4);
    SumsCompose(s, ws, i, 4, 4);
  }

  method AddSixteen(s: Pair, ws: seq<nat>, i: nat) returns (r: Pair)
    requires i + 16 <= |ws|
    ensures r == Sums(s, ws, i, 16)
  {
    r := AddEight(s, ws, i);
    r := AddEight(r, ws, i + 8);
    SumsCompose(s, ws, i, 8, 8);
  }

  method AddBlock(s: Pair, ws: seq<nat>, i: nat, n: nat) returns (r: Pair)
    requires i + n <= |ws|
    ensures r == Sums(s, ws, i, n)
  {
    hide Sums;
    SumsNone(s, ws, i);
    r := s;
    var at, left := i, n;
    while left >= 16
      invariant 0 <= left && i <= at && at + left == i + n && r == Sums(s, ws, i, at - i)
    {
      SumsCompose(s, ws, i, at - i, 16);
      r := AddSixteen(r, ws, at);
      at, left := at + 16, left - 16;
    }
    while left != 0
      invariant 0 <= left && i <= at && at + left == i + n && r == Sums(s, ws, i, at - i)
    {
      SumsCompose(s, ws, i, at - i, 1);
      r := AddOne(r, ws, at);
      at, left := at + 1, left - 1;
    }
  }

  // ----- No overflow -----

  /** 1 + 2 + ... + n. */
  function Triangle(n: nat): nat {
    if n == 0 then 0 else n + Triangle(n - 1)
  }

  lemma {:induction false} TriangleIs(n: nat)
    ensures 2 * Triangle(n) == n * (n + 1)
  {
    if n > 0 {
      TriangleIs(n - 1);
    }
  }

  lemma ProductBound(x: nat, y: nat, n: nat, k: nat)
    requires x <= y && n <= k
    ensures n * x <= k * y
  {
    assert n * x <= k * x;
    assert k * x <= k * y;
  }

  lemma TriangleBound(n: nat, k: nat)
    requires n <= k
    ensures Triangle(n) <= Triangle(k)
  {
    TriangleIs(n);
    TriangleIs(k);
    ProductBound(n + 1, k + 1, n, k);
  }

  /** How large the sums can get: `n` words of at most `w`. */
  function Most(s: Pair, w: nat, n: nat): Pair {
    (s.0 + n * w, s.1 + n * s.0 + w * Triangle(n))
  }

  lemma MostGrows(s: Pair, w: nat, n: nat)
    requires n > 0
    ensures Most(s, w, n).0 == Most(s, w, n - 1).0 + w
    ensures Most(s, w, n).1 == Most(s, w, n - 1).1 + Most(s, w, n).0
  {
    assert n * w == (n - 1) * w + w;
    assert n * s.0 == (n - 1) * s.0 + s.0;
    assert w * Triangle(n) == w * n + w * Triangle(n - 1);
  }

  // ----- Modular sums -----

  /** The moduli of the two checksums. */
  datatype Modulus = Adler | Fletcher

  function Mod(m: Modulus, x: nat): (r: nat)
    ensures r <= x && r < (if m.Adler? then 65521 else 65535)
  {
    if m.Adler? then x % 65521 else x % 65535
  }

  lemma ShiftAdler(x: nat, k: nat)
    ensures (x + 65521 * k) % 65521 == x % 65521
  {
    var d := (x + 65521 * k) / 65521 - x / 65521 - k;
    assert 65521 * d == x % 65521 - (x + 65521 * k) % 65521;
  }

  lemma ShiftFletcher(x: nat, k: nat)
    ensures (x + 65535 * k) % 65535 == x % 65535
  {
    var d := (x + 65535 * k) / 65535 - x / 65535 - k;
    assert 65535 * d == x % 65535 - (x + 65535 * k) % 65535;
  }

  lemma ModAdd(m: Modulus, x: nat, y: nat)
    ensures Mod(m, Mod(m, x) + y) == Mod(m, x + y)
  {
    if m.Adler? {
      ShiftAdler(x % 65521 + y, x / 65521);
    } else {
      ShiftFletcher(x % 65535 + y, x / 65535);
    }
  }

  lemma ModIdempotent(m: Modulus, x: nat)
    ensures Mod(m, Mod(m, x)) == Mod(m, x)
  {
  }

  function ModPair(m: Modulus, s: Pair): Pair {
    (Mod(m, s.0), Mod(m, s.1))
  }

  function ModStep(m: Modulus, s: Pair, w: nat): Pair {
    var a := Mod(m, s.0 + w);
    (a, Mod(m, s.1 + a))
  }

  /** The sums reduced after every word, without wrap-around. */
  function Reduced(m: Modulus, s: Pair, ws: seq<nat>, n: nat): Pair
    requires n <= |ws|
  {
    if n == 0 then ModPair(m, s) else ModStep(m, Reduced(m, s, ws, n - 1), ws[n - 1])
  }

  /** One step on sums that are not reduced agrees with one on sums that are. */
  lemma StepAgrees(m: Modulus, s: Pair, w: nat)
    requires s.0 + w < P32 && s.1 + s.0 + w < P32
    ensures ModPair(m, Step(s, w)) == ModStep(m, ModPair(m, s), w)
    ensures Step(s, w) == (s.0 + w, s.1 + s.0 + w)
  {
    hide Mod;
    ModAdd(m, s.0, w);
    ModAdd(m, s.1, s.0 + w);
    ModAdd(m, s.0 + w, Mod(m, s.1));
  }

  /**
   * As long as the largest possible sums fit in 32 bits, no addition of a block
   * wraps, the sums stay below that bound, and they agree with the sums reduced
   * after every word.
   */
  lemma {:induction false} BlockExact(m: Modulus, s0: Pair, s: Pair, ws: seq<nat>, i: nat, n: nat, w: nat)
    requires i + n <= |ws| && (forall j :: 0 <= j < |ws| ==> ws[j] <= w)
    requires Most(s, w, n).0 < P32 && Most(s, w, n).1 < P32
    requires ModPair(m, s) == Reduced(m, s0, ws, i)
    ensures Sums(s, ws, i, n) == Unwrapped(s, ws, i, n)
    ensures var r := Sums(s, ws, i, n);
            && s.0 <= r.0 <= Most(s, w, n).0 && s.1 <= r.1 <= Most(s, w, n).1
            && ModPair(m, r) == Reduced(m, s0, ws, i + n)
    decreases n
  {
    hide Most, ModPair, ModStep, Step;
    if n > 0 {
      MostGrows(s, w, n);
      BlockExact(m, s0, s, ws, i, n - 1, w);
      StepAgrees(m, Sums(s, ws, i, n - 1), ws[i + n - 1]);
    } else {
      MostAtStart(s, w);
    }
  }

  lemma MostAtStart(s: Pair, w: nat)
    ensures Most(s, w, 0) == s
  {
  }

  /** The reduced sums of a concatenation go on from those of its first part. */
  lemma {:induction false} ReducedConcat(m: Modulus, s: Pair, x: seq<nat>, y: seq<nat>, n: nat)
    requires n <= |y|
    ensures Reduced(m, s, x + y, |x| + n) == Reduced(m, Reduced(m, s, x, |x|), y, n)
    decreases n
  {
    hide Mod;
    if n == 0 {
      ReducedPrefix(m, s, x, y, |x|);
      ReducedSmall(m, s, x, |x|);
    } else {
      ReducedConcat(m, s, x, y, n - 1);
      assert (x + y)[|x| + n - 1] == y[n - 1];
    }
  }

  lemma {:induction false} ReducedPrefix(m: Modulus, s: Pair, x: seq<nat>, y: seq<nat>, n: nat)
    requires n <= |x|
    ensures Reduced(m, s, x + y, n) == Reduced(m, s, x, n)
  {
    hide ModStep, ModPair;
    if n > 0 {
      ReducedPrefix(m, s, x, y, n - 1);
    }
  }

  lemma ReducedSmall(m: Modulus, s: Pair, ws: seq<nat>, n: nat)
    requires n <= |ws|
    ensures ModPair(m, Reduced(m, s, ws, n)) == Reduced(m, s, ws, n)
  {
    hide Mod;
    if n == 0 {
      ModIdempotent(m, s.0);
      ModIdempotent(m, s.1);
    } else {
      var r := Reduced(m, s, ws, n - 1);
      ModIdempotent(m, r.0 + ws[n - 1]);
      ModIdempotent(m, r.1 + Mod(m, r.0 + ws[n - 1]));
    }
  }

  // ----- What the sums are -----

  function PlainSum(ws: seq<nat>, n: nat): nat
    requires n <= |ws|
  {
    if n == 0 then 0 else PlainSum(ws, n - 1) + ws[n - 1]
  }

  /** The first `i` words, each weighted with its distance from position `n`. */
  function WeightedSum(ws: seq<nat>, n: nat, i: nat): nat
    requires i <= n && i <= |ws|
  {
    if i == 0 then 0 else WeightedSum(ws, n, i - 1) + (n - (i - 1)) * ws[i - 1]
  }

  lemma {:induction false} WeightedGrows(ws: seq<nat>, n: nat, i: nat)
    requires i <= n && i <= |ws|
    ensures WeightedSum(ws, n + 1, i) == WeightedSum(ws, n, i) + PlainSum(ws, i)
  {
    if i > 0 {
      WeightedGrows(ws, n, i - 1);
      assert (n + 1 - (i - 1)) * ws[i - 1] == (n - (i - 1)) * ws[i - 1] + ws[i - 1];
    }
  }

  lemma WeightedStep(ws: seq<nat>, n: nat)
    requires 0 < n <= |ws|
    ensures WeightedSum(ws, n, n) == WeightedSum(ws, n - 1, n - 1) + PlainSum(ws, n)
  {
    WeightedGrows(ws, n - 1, n - 1);
    assert (n - (n - 1)) * ws[n - 1] == ws[n - 1];
  }

  lemma ModSum(m: Modulus, x: nat, y: nat)
    ensures Mod(m, Mod(m, x) + Mod(m, y)) == Mod(m, x + y)
  {
    hide Mod;
    ModAdd(m, x, Mod(m, y));
    ModAdd(m, y, x);
  }

  /**
   * The running sums are the plain and the weighted sum of the words, on top of
   * what they start from: the first start value is counted once per word by the
   * second sum.
   */
  lemma {:induction false} ReducedIs(m: Modulus, s: Pair, ws: seq<nat>, n: nat)
    requires n <= |ws|
    ensures Reduced(m, s, ws, n) == (Mod(m, s.0 + PlainSum(ws, n)), Mod(m, s.1 + n * s.0 + WeightedSum(ws, n, n)))
  {
    hide Mod, ModStep, WeightedSum;
    if n == 0 {
      NoneWeighted(ws);
    } else {
      ReducedIs(m, s, ws, n - 1);
      WeightedStep(ws, n);
      var a, b := s.0 + PlainSum(ws, n - 1), s.1 + (n - 1) * s.0 + WeightedSum(ws, n - 1, n - 1);
      StepOfSums(m, a, b, ws[n - 1]);
      NextWeighted(n, s.0, s.1, WeightedSum(ws, n - 1, n - 1), PlainSum(ws, n));
    }
  }

  lemma StepOfSums(m: Modulus, a: nat, b: nat, w: nat)
    ensures ModStep(m, (Mod(m, a), Mod(m, b)), w) == (Mod(m, a + w), Mod(m, b + (a + w)))
  {
    hide Mod;
    ModAdd(m, a, w);
    ModSum(m, b, a + w);
  }

  lemma NoneWeighted(ws: seq<nat>)
    ensures WeightedSum(ws, 0, 0) == 0
  {
  }

  lemma NextWeighted(n: nat, x: nat, y: nat, v: nat, p: nat)
    requires n > 0
    ensures y + n * x + (v + p) == y + (n - 1) * x + v + (x + p)
  {
    assert n * x == (n - 1) * x + x;
  }
}
