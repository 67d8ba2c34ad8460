/**
 * The byte formats of the message layer: little-endian integers of fixed
 * width, variable-length integers (vint) and length-prefixed strings (vstr).
 *
 * A decoder takes the unread bytes and returns the value with the bytes that
 * are left, as the original advances its pointer and its remaining count.
 */
module Serialization {

  type byte = b: int | 0 <= b < 256
  type bytes = seq<byte>

  const P16: int := 0x1_0000
  const P32: int := 0x1_0000_0000
  const P64: int := 0x1_0000_0000_0000_0000

  datatype Error =
    | InputOverrun
    | BadVint
    | BadVstr
    | Unpossible
    | LengthWraps   // a vstr length of 2^64 - 1: the original has no defined result
    | BadCommand

  datatype Result<+T> = Ok(value: T) | Err(error: Error) {
    predicate IsFailure() { Err? }
    function PropagateFailure<U>(): Result<U> requires Err? { Err(error) }
    function Extract(): T requires Ok? { value }
  }

  // ----- Integers of fixed width -----

  function Pow256(n: nat): (p: nat)
    ensures p > 0
  {
    if n == 0 then 1 else 256 * Pow256(n - 1)
  }

  /** The low `n` bytes of `v`, least significant first. */
  function EncodeInt(v: nat, n: nat): (s: bytes)
    ensures |s| == n
  {
    if n == 0 then [] else [v % 256] + EncodeInt(v / 256, n - 1)
  }

  function IntValue(s: bytes): nat {
    if s == [] then 0 else s[0] + 256 * IntValue(s[1..])
  }

  function DecodeInt(s: bytes, n: nat): Result<(nat, bytes)> {
    if |s| < n then Err(InputOverrun) else Ok((IntValue(s[..n]), s[n..]))
  }

  lemma {:induction false} IntRoundTrip(v: nat, n: nat)
    requires v < Pow256(n)
    ensures IntValue(EncodeInt(v, n)) == v
  {
    if n > 0 {
      IntRoundTrip(v / 256, n - 1);
      assert EncodeInt(v, n)[1..] == EncodeInt(v / 256, n - 1);
    }
  }

  /** An integer that fits its width decodes to itself, and the bytes behind it are left. */
  lemma DecodeEncodeInt(v: nat, n: nat, rest: bytes)
    requires v < Pow256(n)
    ensures DecodeInt(EncodeInt(v, n) + rest, n) == Ok((v, rest))
  {
    IntRoundTrip(v, n);
    assert (EncodeInt(v, n) + rest)[..n] == EncodeInt(v, n);
    assert (EncodeInt(v, n) + rest)[n..] == rest;
  }

  /** The byte at place `i` is the one that counts `256^i`. */
  lemma {:induction false} IntBytes(v: nat, n: nat, i: nat)
    requires i < n
    ensures EncodeInt(v, n)[i] == v / Pow256(i) % 256
    decreases i
  {
    if i > 0 {
      IntBytes(v / 256, n - 1, i - 1);
      DivideTwice(v, 256, Pow256(i - 1));
    }
  }

  lemma DivideTwice(v: nat, a: nat, b: nat)
    requires a > 0 && b > 0
    ensures a * b > 0 && v / a / b == v / (a * b)
  {
    var q, r := v / a, v % a;
    var t, u := q / b, q % b;
    Division(v, a);
    Division(q, b);
    Distribute(a, b, t, u);
    Within(a, b, u, r);
    QuotientIs(v, a * b, t, a * u + r);
  }

  lemma Division(v: nat, d: nat)
    requires d > 0
    ensures v == d * (v / d) + v % d && v % d < d
  {
  }

  lemma Distribute(a: nat, b: nat, t: nat, u: nat)
    ensures a * (b * t + u) == (a * b) * t + a * u
  {
  }

  lemma Within(a: nat, b: nat, u: nat, r: nat)
    requires u < b && r < a
    ensures a * u + r < a * b
  {
    MulMonotone(a, u + 1, b);
    assert a * (u + 1) == a * u + a;
  }

  lemma MulMonotone(a: nat, x: nat, y: nat)
    requires x <= y
    ensures a * x <= a * y
  {
  }

  lemma QuotientIs(v: nat, d: nat, t: nat, r: nat)
    requires d > 0 && v == d * t + r && r < d
    ensures v / d == t
  {
    var e := v / d - t;
    assert d * e == r - v % d;
  }

  lemma Widths()
    ensures Pow256(1) == 256 && Pow256(2) == P16 && Pow256(4) == P32 && Pow256(8) == P64
  {
    assert Pow256(3) == 0x100_0000;
    assert Pow256(5) == 0x100_0000_0000 && Pow256(6) == 0x1_0000_0000_0000 && Pow256(7) == 0x100_0000_0000_0000;
  }

  /** Wrapping a part of a sum to 32 bits does not change the wrapped sum. */
  lemma WrapOnce(x: nat, y: nat)
    ensures (x % P32 + y) % P32 == (x + y) % P32
  {
    var d := (x + y) / P32 - x / P32 - (x % P32 + y) / P32;
    assert P32 * d == (x % P32 + y) % P32 - (x + y) % P32;
  }

  // ----- Variable-length integers -----

  function Pow2(n: nat): (p: nat)
    ensures p > 0
  {
    if n == 0 then 1 else 2 * Pow2(n - 1)
  }

  lemma Pow2Seven(n: nat)
    ensures Pow2(n + 7) == 128 * Pow2(n)
  {
    assert Pow2(n + 7) == 2 * Pow2(n + 6) == 4 * Pow2(n + 5) == 8 * Pow2(n + 4);
    assert Pow2(n + 4) == 2 * Pow2(n + 3) == 4 * Pow2(n + 2) == 8 * Pow2(n + 1);
  }

  lemma {:induction false} Pow2Sevens(k: nat)
    ensures Pow2(7 * k + 7) == 128 * Pow2(7 * k)
  {
    Pow2Seven(7 * k);
  }

  lemma Pow2Widths()
    ensures Pow2(32) == P32 && Pow2(64) == P64
  {
    assert Pow2(7) == 128 by { Pow2Seven(0); }
    Pow2Seven(7);
    Pow2Seven(14);
    Pow2Seven(21);
    assert Pow2(32) == 2 * Pow2(31) == 4 * Pow2(30) == 8 * Pow2(29) == 16 * Pow2(28);
    Pow2Seven(28);
    Pow2Seven(35);
    Pow2Seven(42);
    Pow2Seven(49);
    Pow2Seven(56);
    assert Pow2(64) == 2 * Pow2(63);
  }

  /**
   * Seven bits to a byte, least significant first, with the top bit on all but
   * the last.  `k` is how many more bytes the unrolled original can write after
   * the first; it reports an error when they do not suffice.
   */
  function EncodeVint(v: nat, k: nat): Result<bytes> {
    if v <= 0x7f then Ok([v])
    else if k == 0 then Err(Unpossible)
    else
      var tail :- EncodeVint(v / 128, k - 1);
      Ok([v % 128 + 128] + tail)
  }

  /** 32-bit values: one test, then five times a byte and a test. */
  function EncodeVint32(v: nat): Result<bytes> { EncodeVint(v, 5) }

  /** 64-bit values: one test, then ten times a byte and a test. */
  function EncodeVint64(v: nat): Result<bytes> { EncodeVint(v, 10) }

  function EncodedLengthVint32(v: nat): nat {
    if v <= 0x7f then 1
    else if v <= 0x3fff then 2
    else if v <= 0x1f_ffff then 3
    else if v <= 0xfff_ffff then 4
    else 5
  }

  function EncodedLengthVint64(v: nat): nat {
    if v <= 0x7f then 1
    else if v <= 0x3fff then 2
    else if v <= 0x1f_ffff then 3
    else if v <= 0xfff_ffff then 4
    else if v <= 0x7_ffff_ffff then 5
    else if v <= 0x3ff_ffff_ffff then 6
    else if v <= 0x1_ffff_ffff_ffff then 7
    else if v <= 0xff_ffff_ffff_ffff then 8
    else if v <= 0x7fff_ffff_ffff_ffff then 9
    else 10
  }

  /**
   * After a byte has been read into `v`: go on while the byte `last` has its top
   * bit on.  The or of the original is a sum, because the new bits lie above
   * those of `v`; shifted bits beyond the width of the type are lost.
   */
  function DecodeVintFrom(bits: nat, s: bytes, v: nat, shift: nat, last: byte, k: nat): Result<(nat, bytes)>
    decreases k
  {
    if k == 0 then Err(BadVint)
    else if last < 128 then Ok((v, s))
    else if s == [] then Err(InputOverrun)
    else
      DecodeVintFrom(bits, s[1..], v + (s[0] % 128 * Pow2(shift + 7)) % Pow2(bits), shift + 7, s[0], k - 1)
  }

  function DecodeVint(bits: nat, k: nat, s: bytes): Result<(nat, bytes)> {
    if s == [] then Err(InputOverrun)
    else DecodeVintFrom(bits, s[1..], s[0] % 128, 0, s[0], k)
  }

  function DecodeVint32(s: bytes): Result<(nat, bytes)> { DecodeVint(32, 5, s) }

  function DecodeVint64(s: bytes): Result<(nat, bytes)> { DecodeVint(64, 10, s) }

  /** There are at most `i` bytes exactly when `i` groups of seven bits suffice. */
  lemma {:induction false} EncodeVintFits(v: nat, k: nat, i: nat)
    requires v < Pow2(7 * k + 7) && 1 <= i <= k + 1
    ensures EncodeVint(v, k).Ok? && 1 <= |EncodeVint(v, k).value| <= k + 1
    ensures |EncodeVint(v, k).value| <= i <==> v < Pow2(7 * i)
  {
    assert Pow2(7) == 128 by { Pow2Seven(0); }
    if v <= 0x7f {
      Pow2Grows(7, 7 * i);
    } else if k == 0 {
      assert false;
    } else {
      Pow2Sevens(k);
      EncodeVintFits(v / 128, k - 1, if i > 1 then i - 1 else 1);
      if i > 1 {
        Pow2Sevens(i - 1);
      }
    }
  }

  lemma {:induction false} Pow2Grows(m: nat, n: nat)
    requires m <= n
    ensures Pow2(m) <= Pow2(n)
    decreases n - m
  {
    if m < n { Pow2Grows(m + 1, n); }
  }

  /** The low seven bits and the rest of a value that fits, when scaled. */
  lemma SplitSeven(w: nat, p: nat, v: nat, q: nat)
    requires p > 0 && v + w * p < q
    ensures w % 128 * p % q == w % 128 * p
    ensures v + w * p == v + w % 128 * p + (w / 128) * (128 * p)
  {
    assert w * p == (w % 128) * p + (w / 128) * (128 * p) by {
      assert w == w % 128 + (w / 128) * 128;
    }
    assert 0 <= (w / 128) * (128 * p);
    SmallMod(w % 128 * p, q);
  }

  lemma SmallMod(x: nat, q: nat)
    requires x < q
    ensures x % q == x
  {
  }

  lemma {:induction false} DecodeVintTail(bits: nat, w: nat, e: nat, rest: bytes,
                                          v: nat, shift: nat, last: byte, k: nat)
    requires EncodeVint(w, e).Ok? && |EncodeVint(w, e).value| < k && last >= 128
    requires v + w * Pow2(shift + 7) < Pow2(bits)
    ensures DecodeVintFrom(bits, EncodeVint(w, e).value + rest, v, shift, last, k) ==
            Ok((v + w * Pow2(shift + 7), rest))
    decreases e
  {
    var p, q := Pow2(shift + 7), Pow2(bits);
    var s := EncodeVint(w, e).value + rest;
    SplitSeven(w, p, v, q);
    var v' := v + w % 128 * p;
    assert s[0] % 128 == w % 128;
    assert DecodeVintFrom(bits, s, v, shift, last, k) == DecodeVintFrom(bits, s[1..], v', shift + 7, s[0], k - 1);
    if w <= 0x7f {
      assert s[1..] == rest;
    } else {
      assert Pow2(shift + 14) == 128 * p by { Pow2Seven(shift + 7); }
      assert s[1..] == EncodeVint(w / 128, e - 1).value + rest;
      DecodeVintTail(bits, w / 128, e - 1, rest, v', shift + 7, s[0], k - 1);
    }
  }

  lemma EncodeVintShort(v: nat, k: nat)
    requires k > 0 && v < Pow2(7 * k)
    ensures EncodeVint(v, k).Ok? && |EncodeVint(v, k).value| <= k
  {
    Pow2Grows(7 * k, 7 * k + 7);
    EncodeVintFits(v, k, k);
  }

  lemma LowSeven(v: nat)
    ensures v % 128 + v / 128 * Pow2(0 + 7) == v
  {
    Pow2Seven(0);
    assert Pow2(0 + 7) == 128;
  }

  lemma DecodeEncodeLong(bits: nat, v: nat, k: nat, rest: bytes)
    requires k > 0 && 0x7f < v < Pow2(bits) && EncodeVint(v / 128, k - 1).Ok?
    requires |EncodeVint(v / 128, k - 1).value| < k
    ensures DecodeVint(bits, k, [v % 128 + 128] + EncodeVint(v / 128, k - 1).value + rest) == Ok((v, rest))
  {
    hide Pow2, EncodeVint, DecodeVintFrom;
    var tail := EncodeVint(v / 128, k - 1).value;
    var s := [v % 128 + 128] + tail + rest;
    assert s[0] == v % 128 + 128 && s[1..] == tail + rest;
    LowSeven(v);
    DecodeVintTail(bits, v / 128, k - 1, rest, v % 128, 0, s[0], k);
  }

  lemma DecodeEncodeVint(bits: nat, v: nat, k: nat, rest: bytes)
    requires k > 0 && v < Pow2(bits) && v < Pow2(7 * k)
    ensures EncodeVint(v, k).Ok?
    ensures DecodeVint(bits, k, EncodeVint(v, k).value + rest) == Ok((v, rest))
  {
    hide Pow2;
    EncodeVintShort(v, k);
    if v <= 0x7f {
      assert (EncodeVint(v, k).value + rest)[1..] == rest;
    } else {
      DecodeEncodeLong(bits, v, k, rest);
    }
  }

  /**
   * 32-bit vints: encoding never fails, takes exactly the computed length, and
   * decodes to the value with whatever follows left untouched.
   */
  lemma Vint32RoundTrip(v: nat, rest: bytes)
    requires v < P32
    ensures EncodeVint32(v).Ok? && |EncodeVint32(v).value| == EncodedLengthVint32(v)
    ensures DecodeVint32(EncodeVint32(v).value + rest) == Ok((v, rest))
  {
    Pow2Widths();
    Pow2Grows(32, 35);
    VintLength(v, 5);
    DecodeEncodeVint(32, v, 5, rest);
  }

  /** The same for 64-bit vints. */
  lemma Vint64RoundTrip(v: nat, rest: bytes)
    requires v < P64
    ensures EncodeVint64(v).Ok? && |EncodeVint64(v).value| == EncodedLengthVint64(v)
    ensures DecodeVint64(EncodeVint64(v).value + rest) == Ok((v, rest))
  {
    Pow2Widths();
    Pow2Grows(64, 70);
    VintLength(v, 10);
    DecodeEncodeVint(64, v, 10, rest);
  }

  /** The table of thresholds is the number of groups of seven bits. */
  lemma VintLength(v: nat, k: nat)
    requires k == 5 || k == 10
    requires v < (if k == 5 then P32 else P64)
    ensures EncodeVint(v, k).Ok?
    ensures |EncodeVint(v, k).value| == EncodedLengthVint64(v)
    ensures k == 5 ==> EncodedLengthVint64(v) == EncodedLengthVint32(v)
  {
    hide EncodeVint, Pow2;
    Sevens();
    EncodeVintShort(v, k);
    Pow2Grows(7 * k, 7 * k + 7);
    EncodeVintFits(v, k, 1);
    EncodeVintFits(v, k, 2);
    EncodeVintFits(v, k, 3);
    EncodeVintFits(v, k, 4);
    EncodeVintFits(v, k, 5);
    if k == 10 {
      EncodeVintFits(v, k, 6);
      EncodeVintFits(v, k, 7);
      EncodeVintFits(v, k, 8);
      EncodeVintFits(v, k, 9);
    }
  }

  lemma Sevens()
    ensures Pow2(7) == 0x80 && Pow2(14) == 0x4000 && Pow2(21) == 0x20_0000 && Pow2(28) == 0x1000_0000
    ensures Pow2(35) == 0x8_0000_0000 && Pow2(42) == 0x400_0000_0000 && Pow2(49) == 0x2_0000_0000_0000
    ensures Pow2(56) == 0x100_0000_0000_0000 && Pow2(63) == 0x8000_0000_0000_0000
    ensures Pow2(70) == 128 * Pow2(63)
  {
    Pow2Seven(0);
    Pow2Seven(7);
    Pow2Seven(14);
    Pow2Seven(21);
    Pow2Seven(28);
    Pow2Seven(35);
    Pow2Seven(42);
    Pow2Seven(49);
    Pow2Seven(56);
    Pow2Seven(63);
  }

  /** Each byte but the last has its top bit on, and carries the next seven bits of the value. */
  lemma {:induction false} VintBytes(v: nat, k: nat, i: nat)
    requires EncodeVint(v, k).Ok? && i < |EncodeVint(v, k).value|
    ensures var s := EncodeVint(v, k).value;
            s[i] % 128 == v / Pow2(7 * i) % 128 && (s[i] >= 128 <==> i < |s| - 1)
    decreases i
  {
    if i > 0 {
      VintBytes(v / 128, k - 1, i - 1);
      Pow2Sevens(i - 1);
      DivideTwice(v, 128, Pow2(7 * (i - 1)));
    }
  }

  /** The place of the first byte without its top bit, or the length. */
  function VintEnd(s: bytes): (e: nat)
    ensures e <= |s| && (forall i :: 0 <= i < e ==> s[i] >= 128) && (e < |s| ==> s[e] < 128)
  {
    if s == [] || s[0] < 128 then 0 else 1 + VintEnd(s[1..])
  }

  lemma {:induction false} DecodeVintEnds(bits: nat, s: bytes, v: nat, shift: nat, k: nat)
    requires s != []
    ensures match DecodeVintFrom(bits, s[1..], v, shift, s[0], k)
            case Ok((_, rest)) => VintEnd(s) < k && VintEnd(s) < |s| && rest == s[VintEnd(s) + 1..]
            case Err(e) => (VintEnd(s) >= k || VintEnd(s) == |s|) && e == if |s| <= k then InputOverrun else BadVint
    decreases k
  {
    if k > 0 && s[0] >= 128 && |s| > 1 {
      DecodeVintEnds(bits, s[1..], v + (s[1] % 128 * Pow2(shift + 7)) % Pow2(bits), shift + 7, k - 1);
    }
  }

  /** A vint is read up to its first byte without the top bit, which has to be among the first `k`. */
  lemma DecodeVintExactly(bits: nat, k: nat, s: bytes)
    requires k > 0
    ensures match DecodeVint(bits, k, s)
            case Ok((_, rest)) => VintEnd(s) < k && VintEnd(s) < |s| && rest == s[VintEnd(s) + 1..]
            case Err(e) => (VintEnd(s) >= k || VintEnd(s) == |s|) && e == if |s| <= k then InputOverrun else BadVint
  {
    if s != [] {
      DecodeVintEnds(bits, s, s[0] % 128, 0, k);
    }
  }

  // ----- Strings -----

  /** The length as a vint, the bytes, and a terminating zero. */
  function EncodeVstr(s: bytes): Result<bytes> {
    var head :- EncodeVint64(|s|);
    Ok(head + s + [0])
  }

  function EncodedLengthVstr(n: nat): nat { EncodedLengthVint64(n) + n + 1 }

  function DecodeVstr(s: bytes): Result<(bytes, bytes)> {
    var (n, t) :- DecodeVint64(s);
    if n == P64 - 1 then Err(LengthWraps)
    else if |t| < n + 1 then Err(InputOverrun)
    else if t[n] != 0 then Err(BadVstr)
    else Ok((t[..n], t[n + 1..]))
  }

  /** A string is read exactly where its length, its bytes and a zero stand. */
  lemma DecodeVstrExactly(s: bytes, name: bytes, rest: bytes)
    ensures DecodeVstr(s) == Ok((name, rest)) <==>
            |name| != P64 - 1 && DecodeVint64(s) == Ok((|name|, name + [0] + rest))
  {
    hide DecodeVint64;
    var t := name + [0] + rest;
    assert t[..|name|] == name && t[|name|] == 0 && t[|name| + 1..] == rest;
    if DecodeVstr(s) == Ok((name, rest)) {
      var u := DecodeVint64(s).value.1;
      assert |name| < |u| && u == u[..|name|] + [u[|name|]] + u[|name| + 1..];
    }
  }

  /** The encoding of a string ends in its bytes and a zero. */
  lemma VstrLayout(s: bytes)
    requires EncodeVstr(s).Ok?
    ensures var r := EncodeVstr(s).value; |r| > |s| && r[|r| - |s| - 1..] == s + [0]
  {
    var head := EncodeVint64(|s|).value;
    assert (head + s + [0])[|head|..] == s + [0];
  }

  /** A string decodes to itself, in the computed length, with whatever follows left untouched. */
  lemma VstrRoundTrip(s: bytes, rest: bytes)
    requires |s| < P64 - 1
    ensures EncodeVstr(s).Ok? && |EncodeVstr(s).value| == EncodedLengthVstr(|s|)
    ensures DecodeVstr(EncodeVstr(s).value + rest) == Ok((s, rest))
  {
    Vint64RoundTrip(|s|, s + [0] + rest);
    var head := EncodeVint64(|s|).value;
    assert head + s + [0] + rest == head + (s + [0] + rest);
    var t := s + [0] + rest;
    assert t[..|s|] == s && t[|s| + 1..] == rest;
  }
}
