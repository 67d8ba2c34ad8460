/**
 * The streaming part of MD5 (RFC 1321): input arrives in pieces of any size and
 * is digested in blocks of 64 bytes.  The compression of one block is a
 * parameter.
 */
module Md5 {
  import Sequences
  import opened Serialization

  /** The four words of the digest state. */
  datatype State = State(a: nat, b: nat, c: nat, d: nat)

  const Initial := State(0x67452301, 0xEFCDAB89, 0x98BADCFE, 0x10325476)

  type Compression = (State, bytes) -> State

  /** The state after the first `k` blocks of a message. */
  function Digested(f: Compression, m: bytes, k: nat): State
    requires 64 * k <= |m|
  {
    if k == 0 then Initial else f(Digested(f, m, k - 1), m[64 * (k - 1)..64 * k])
  }

  lemma {:induction false} DigestedPrefix(f: Compression, m: bytes, more: bytes, k: nat)
    requires 64 * k <= |m|
    ensures Digested(f, m + more, k) == Digested(f, m, k)
  {
    if k > 0 {
      DigestedPrefix(f, m, more, k - 1);
      assert (m + more)[64 * (k - 1)..64 * k] == m[64 * (k - 1)..64 * k];
    }
  }

  // ----- Padding -----

  /** How many bytes of padding: at least one, to eight bytes short of a block. */
  function PaddingLength(n: nat): (p: nat)
    ensures 1 <= p <= 64 && (n + p) % 64 == 56
  {
    if n % 64 < 56 then 56 - n % 64 else 120 - n % 64
  }

  lemma PaddingIsShortest(n: nat, q: nat)
    requires 1 <= q && (n + q) % 64 == 56
    ensures PaddingLength(n) <= q
  {
    var r := n % 64;
    assert n == 64 * (n / 64) + r;
    assert (r + q) % 64 == 56;
  }

  function Padding(n: nat): (p: bytes)
    requires 1 <= n
    ensures |p| == n && p[0] == 0x80 && forall i :: 0 < i < n ==> p[i] == 0
  {
    [0x80] + seq(n - 1, i => 0)
  }

  /** Sections 3.1 and 3.2 of RFC 1321: a one bit, zeros, and the length in bits as a 64-bit number, low word first. */
  function Padded(m: bytes): (r: bytes)
    ensures |r| % 64 == 0 && |m| + 9 <= |r| <= |m| + 72
    ensures r[..|m|] == m && r[|m|] == 0x80 && (forall i :: |m| < i < |r| - 8 ==> r[i] == 0)
    ensures r[|r| - 8..] == EncodeInt(8 * |m|, 8)
  {
    var p := PaddingLength(|m|);
    assert (|m| + p + 8) % 64 == ((|m| + p) % 64 + 8) % 64;
    m + Padding(p) + EncodeInt(8 * |m|, 8)
  }

  function Output(s: State): (r: bytes)
    ensures |r| == 16 && r[..4] == EncodeInt(s.a, 4) && r[4..8] == EncodeInt(s.b, 4)
    ensures r[8..12] == EncodeInt(s.c, 4) && r[12..] == EncodeInt(s.d, 4)
  {
    EncodeInt(s.a, 4) + EncodeInt(s.b, 4) + EncodeInt(s.c, 4) + EncodeInt(s.d, 4)
  }

  /** The digest of a message: the compression folded over the blocks of the padded message. */
  function Digest(f: Compression, m: bytes): bytes {
    Output(Digested(f, Padded(m), |Padded(m)| / 64))
  }

  /** Section 3.3 of RFC 1321 gives the initial words byte by byte. */
  lemma InitialBytes()
    ensures Output(Initial) == [0x01, 0x23, 0x45, 0x67, 0x89, 0xAB, 0xCD, 0xEF,
                                0xFE, 0xDC, 0xBA, 0x98, 0x76, 0x54, 0x32, 0x10]
  {
    FourBytes(Initial.a);
    FourBytes(Initial.b);
    FourBytes(Initial.c);
    FourBytes(Initial.d);
  }

  lemma FourBytes(v: nat)
    ensures EncodeInt(v, 4) == [v % 256, v / 256 % 256, v / 256 / 256 % 256, v / 256 / 256 / 256 % 256]
  {
    assert EncodeInt(v / 256 / 256 / 256, 1) == [v / 256 / 256 / 256 % 256] + EncodeInt(v / 256 / 256 / 256 / 256, 0);
    assert EncodeInt(v / 256 / 256, 2) == [v / 256 / 256 % 256] + EncodeInt(v / 256 / 256 / 256, 1);
    assert EncodeInt(v / 256, 3) == [v / 256 % 256] + EncodeInt(v / 256 / 256, 2);
  }

  // ----- The length in bits -----

  lemma AddBytes(v: nat, step: nat)
    ensures (v + 256 * step) % 256 == v % 256 && (v + 256 * step) / 256 == v / 256 + step
  {
  }

  lemma Scaled(k: nat, p: nat)
    ensures k * (256 * p) == 256 * (k * p)
  {
  }

  /** Only the low bytes of a number are encoded. */
  lemma {:induction false} EncodeLow(v: nat, k: nat, n: nat)
    ensures EncodeInt(v + k * Pow256(n), n) == EncodeInt(v, n)
  {
    if n > 0 {
      var step := k * Pow256(n - 1);
      Scaled(k, Pow256(n - 1));
      EncodeLow(v / 256, k, n - 1);
      EncodeLowest(v, k * Pow256(n), step, n);
    }
  }

  lemma EncodeLowest(v: nat, w: nat, step: nat, n: nat)
    requires n > 0 && w == 256 * step && EncodeInt(v / 256 + step, n - 1) == EncodeInt(v / 256, n - 1)
    ensures EncodeInt(v + w, n) == EncodeInt(v, n)
  {
    AddBytes(v, step);
  }

  lemma {:induction false} EncodeSplit(v: nat, n: nat, k: nat)
    ensures EncodeInt(v, n + k) == EncodeInt(v, n) + EncodeInt(Shifted(v, n), k)
  {
    if n > 0 {
      EncodeSplit(v / 256, n - 1, k);
    }
  }

  /** A number without its low bytes. */
  function Shifted(v: nat, n: nat): nat {
    if n == 0 then v else Shifted(v / 256, n - 1)
  }

  lemma ShiftedFour(v: nat)
    ensures Shifted(v, 4) == v / P32
  {
    assert Shifted(v, 4) == Shifted(v / 256, 3) == Shifted(v / 256 / 256, 2) == Shifted(v / 256 / 256 / 256, 1);
    assert Shifted(v / 256 / 256 / 256, 1) == Shifted(v / 256 / 256 / 256 / 256, 0) == v / 256 / 256 / 256 / 256;
  }

  /** The two counters give the length in bits. */
  lemma BitLength(n: nat, total0: nat, total1: nat)
    requires total0 == n % P32 && total1 == n / P32 % P32
    ensures EncodeInt(total0 * 8, 4) + EncodeInt(total0 / 0x2000_0000 + total1 * 8, 4) == EncodeInt(8 * n, 8)
  {
    hide EncodeInt, Shifted, Pow256;
    var q := n / P32;
    var high := total0 / 0x2000_0000 + total1 * 8;
    var k := 8 * (q / P32);
    Widths();
    EncodeSplit(8 * n, 4, 4);
    ShiftedFour(8 * n);
    BitWords(n);
    EncodeLow(total0 * 8, 8 * q, 4);
    EncodeLow(high, k, 4);
  }

  /** The words of the length in bits, from the words of the length in bytes. */
  lemma BitWords(n: nat)
    ensures var q, low := n / P32, n % P32;
            && low * 8 + 8 * q * P32 == 8 * n
            && 8 * n / P32 == low / 0x2000_0000 + 8 * q
            && 8 * q == q % P32 * 8 + 8 * (q / P32) * P32
  {
    var q, low := n / P32, n % P32;
    var t, u := low / 0x2000_0000, low % 0x2000_0000;
    assert 8 * n == P32 * (8 * q + t) + 8 * u;
  }

  /** The sum wraps exactly when it comes out smaller than what was added. */
  lemma Carry(n: nat, k: nat)
    requires k < 0x8000_0000
    ensures var r := (n % P32 + k) % P32;
            r == (n + k) % P32 && (n + k) / P32 == n / P32 + (if r < k then 1 else 0)
  {
    var q, low := n / P32, n % P32;
    assert n == P32 * q + low;
    if low + k < P32 {
      assert (n + k) / P32 == q;
    } else {
      assert (n + k) / P32 == q + 1;
    }
  }

  // ----- The context -----

  class Context {
    const process: Compression
    var total0: nat
    var total1: nat
    var state: State
    const buffer: array<byte>
    ghost var message: bytes

    /** The counters, the state and the buffer are what the message so far makes them. */
    ghost predicate Valid()
      reads this, buffer
    {
      && buffer.Length == 64
      && total0 == |message| % P32
      && total1 == |message| / P32 % P32
      && state == Digested(process, message, |message| / 64)
      && buffer[..|message| % 64] == message[|message| - |message| % 64..]
    }

    constructor (process: Compression)
      ensures Valid() && message == [] && this.process == process && fresh(buffer)
    {
      this.process := process;
      total0, total1 := 0, 0;
      state := Initial;
      buffer := new byte[64](i => 0);
      message := [];
    }

    /** Copies bytes into the buffer. */
    method Copy(input: bytes, at: nat)
      requires buffer.Length == 64 && at + |input| <= 64
      modifies buffer
      ensures buffer[..at] == old(buffer[..at]) && buffer[at..at + |input|] == input
    {
      for i := 0 to |input|
        invariant buffer[..at] == old(buffer[..at])
        invariant buffer[at..at + i] == input[..i]
      {
        buffer[at + i] := input[i];
      }
    }

    /** Counts bytes; a carry shows by the low counter being smaller than what was added. */
    method Count(n: nat)
      requires n < 0x8000_0000 && total0 == |message| % P32
      requires total1 == |message| / P32 % P32
      modifies this`total0, this`total1
      ensures total0 == (|message| + n) % P32
      ensures total1 == (|message| + n) / P32 % P32
    {
      Carry(|message|, n);
      WrapOnce(|message| / P32, 1);
      total0 := (total0 + n) % P32;
      if total0 < n {
        total1 := (total1 + 1) % P32;
      }
    }

    /** Digests whole blocks straight from the input. */
    method Blocks(input: bytes, start: nat, ghost full: bytes, ghost k: nat) returns (at: nat)
      requires start <= |input| && 64 * k <= |full| && full[64 * k..] == input[start..]
      requires state == Digested(process, full, k)
      modifies this`state
      ensures start <= at <= |input| && |input| - at < 64 && (at - start) % 64 == 0
      ensures 64 * k + (at - start) <= |full| && state == Digested(process, full, k + (at - start) / 64)
    {
      at := start;
      ghost var done := k;
      while |input| - at >= 64
        invariant start <= at <= |input| && k <= done && at - start == 64 * (done - k)
        invariant 64 * done <= |full| && |full| - 64 * done == |input| - at
        invariant state == Digested(process, full, done)
      {
        BlockOf(full, input, k, start, done, at);
        state := process(state, input[at..at + 64]);
        at, done := at + 64, done + 1;
      }
    }

    /** Takes input of any size; only the length of an `int` is possible. */
    method Update(input: bytes)
      requires Valid() && |input| < 0x8000_0000
      modifies this, buffer
      ensures Valid() && message == old(message) + input
    {
      hide Digested;
      if |input| == 0 {
        assert message + input == message;
        return;
      }
      var left := total0 % 64;
      LowCounter(|message|);
      Count(|input|);
      if left > 0 && |input| < 64 - left {
        Append(input, left);
      } else {
        Consume(input, left);
      }
      message := message + input;
    }

    /** Input that completes the block in the buffer, if there is one. */
    method Consume(input: bytes, left: nat)
      requires buffer.Length == 64 && left == |message| % 64 && (left > 0 ==> |input| >= 64 - left)
      requires state == Digested(process, message, |message| / 64)
      requires buffer[..left] == message[|message| - left..]
      modifies this`state, buffer
      ensures var full := message + input;
              state == Digested(process, full, |full| / 64) && buffer[..|full| % 64] == full[|full| - |full| % 64..]
    {
      hide Digested;
      var at := 0;
      if left > 0 {
        at := FillBuffer(input, left);
      } else {
        DigestedPrefix(process, message, input, |message| / 64);
      }
      BlocksAndRest(input, at);
    }

    /** Input that does not complete the block in the buffer. */
    method Append(input: bytes, left: nat)
      requires buffer.Length == 64 && left == |message| % 64 && left + |input| < 64
      requires state == Digested(process, message, |message| / 64)
      requires buffer[..left] == message[|message| - left..]
      modifies buffer
      ensures var full := message + input;
              state == Digested(process, full, |full| / 64) && buffer[..|full| % 64] == full[|full| - |full| % 64..]
    {
      Copy(input, left);
      DigestedPrefix(process, message, input, |message| / 64);
      AppendedTail(message, input, left, buffer[..]);
    }

    /** Digests the whole blocks of the rest of the input and keeps what is left over. */
    method BlocksAndRest(input: bytes, start: nat)
      requires buffer.Length == 64 && start <= |input| && (|message| + start) % 64 == 0
      requires state == Digested(process, message + input, (|message| + start) / 64)
      modifies this`state, buffer
      ensures var full := message + input;
              state == Digested(process, full, |full| / 64) && buffer[..|full| % 64] == full[|full| - |full| % 64..]
    {
      hide Digested;
      ghost var full := message + input;
      ghost var k := (|message| + start) / 64;
      TailOf(message, input, start);
      var at := Blocks(input, start, full, k);
      RestOf(full, input, k, start, at);
      Copy(input[at..], 0);
      assert buffer[..|input| - at] == buffer[0..0 + |input[at..]|];
    }

    /** Pads the message and returns its digest. */
    method Finish() returns (output: bytes)
      requires Valid()
      modifies this, buffer
      ensures Valid() && output == Digest(process, old(message))
    {
      hide Digested, EncodeInt;
      BitLength(|message|, total0, total1);
      LowCounter(|message|);
      var high := total0 / 0x2000_0000 + total1 * 8;
      var msglen := EncodeInt(total0 * 8, 4) + EncodeInt(high, 4);
      var last := total0 % 64;
      var padn := if last < 56 then 56 - last else 120 - last;
      Update(Padding(padn));
      Update(msglen);
      output := Output(state);
    }

    /** Completes the block in the buffer and digests it. */
    method FillBuffer(input: bytes, left: nat) returns (at: nat)
      requires buffer.Length == 64 && left == |message| % 64 && left > 0 && |input| >= 64 - left
      requires state == Digested(process, message, |message| / 64)
      requires buffer[..left] == message[|message| - left..]
      modifies this`state, buffer
      ensures at == 64 - left && (|message| + at) % 64 == 0
      ensures state == Digested(process, message + input, (|message| + at) / 64)
    {
      hide Digested;
      at := 64 - left;
      NextBlock(|message|, at);
      Copy(input[..at], left);
      FilledDigest(process, message, input, left, buffer[..]);
      state := process(state, buffer[..]);
    }
  }

  /** The low counter tells the position in the block. */
  lemma LowCounter(n: nat)
    ensures n % P32 % 64 == n % 64
  {
    var q, r := n / P32, n % P32;
    var k := 0x400_0000 * q + r / 64;
    assert n == 64 * k + r % 64;
    Residue(k, r % 64);
  }

  lemma Residue(k: nat, r: nat)
    requires r < 64
    ensures (64 * k + r) % 64 == r
  {
  }

  lemma NextBlock(n: nat, at: nat)
    requires n % 64 > 0 && at == 64 - n % 64
    ensures (n + at) % 64 == 0 && (n + at) / 64 == n / 64 + 1
  {
  }

  /** The rest of the buffered block and the start of the input make the next block of the message. */
  lemma FilledBlock(m: bytes, input: bytes, left: nat, block: bytes)
    requires left == |m| % 64 && left > 0 && |input| >= 64 - left && |block| == 64
    requires block[..left] == m[|m| - left..] && block[left..64] == input[..64 - left]
    ensures var k := |m| / 64; 64 * (k + 1) <= |m + input| && (m + input)[64 * k..64 * (k + 1)] == block
  {
    var k := |m| / 64;
    assert 64 * k == |m| - left;
    var slice := (m + input)[64 * k..64 * (k + 1)];
    forall i | 0 <= i < 64 ensures slice[i] == block[i] {
      if i < left {
        assert block[i] == block[..left][i] == m[|m| - left..][i];
      } else {
        assert block[i] == block[left..64][i - left] == input[i - left];
      }
    }
  }

  lemma FilledDigest(f: Compression, m: bytes, input: bytes, left: nat, block: bytes)
    requires left == |m| % 64 && left > 0 && |input| >= 64 - left && |block| == 64
    requires block[..left] == m[|m| - left..] && block[left..64] == input[..64 - left]
    ensures var k := |m| / 64;
            64 * (k + 1) <= |m + input| && Digested(f, m + input, k + 1) == f(Digested(f, m, k), block)
  {
    FilledBlock(m, input, left, block);
    DigestedPrefix(f, m, input, |m| / 64);
  }

  lemma TailOf(m: bytes, input: bytes, start: nat)
    requires start <= |input| && (|m| + start) % 64 == 0
    ensures var k := (|m| + start) / 64; 64 * k <= |m + input| && (m + input)[64 * k..] == input[start..]
  {
    assert 64 * ((|m| + start) / 64) == |m| + start;
  }

  lemma AppendedTail(m: bytes, input: bytes, left: nat, block: bytes)
    requires left == |m| % 64 && left + |input| < 64 && |block| == 64
    requires block[..left] == m[|m| - left..] && block[left..left + |input|] == input
    ensures var full := m + input;
            |full| / 64 == |m| / 64 && block[..|full| % 64] == full[|full| - |full| % 64..]
  {
    var full := m + input;
    assert |full| == 64 * (|m| / 64) + left + |input|;
    assert |full| % 64 == left + |input|;
    assert block[..left + |input|] == block[..left] + block[left..left + |input|];
    assert full[|full| - (left + |input|)..] == m[|m| - left..] + input;
  }

  /** What is left of the input is less than a block, at the end of the message. */
  lemma RestOf(full: bytes, input: bytes, k: nat, start: nat, at: nat)
    requires start <= at <= |input| && 64 * k <= |full| && full[64 * k..] == input[start..]
    requires |input| - at < 64 && (at - start) % 64 == 0
    ensures |full| / 64 == k + (at - start) / 64 && |full| % 64 == |input| - at
    ensures full[|full| - |full| % 64..] == input[at..]
  {
    var j := (at - start) / 64;
    assert |full| == 64 * (k + j) + (|input| - at);
    assert |full| % 64 == |input| - at;
    assert full[64 * k..][at - start..] == full[64 * k + (at - start)..];
    assert input[start..][at - start..] == input[at..];
  }

  /** A block of the input is a block of the message. */
  lemma BlockOf(full: bytes, input: bytes, k: nat, start: nat, done: nat, at: nat)
    requires start <= |input| && 64 * k <= |full| && full[64 * k..] == input[start..]
    requires start <= at <= at + 64 <= |input| && k <= done && at - start == 64 * (done - k)
    requires 64 * (done + 1) <= |full|
    ensures full[64 * done..64 * (done + 1)] == input[at..at + 64]
  {
    var o := at - start;
    assert full[64 * k..][o..o + 64] == full[64 * done..64 * (done + 1)];
    assert input[start..][o..o + 64] == input[at..at + 64];
  }

  /** The digest of a message that arrives in pieces: any split gives the digest of the whole. */
  method DigestPieces(f: Compression, pieces: seq<bytes>) returns (output: bytes)
    requires forall i :: 0 <= i < |pieces| ==> |pieces[i]| < 0x8000_0000
    ensures output == Digest(f, Sequences.Flatten(pieces))
  {
    hide Digest, Digested;
    var context := new Context(f);
    for i := 0 to |pieces|
      invariant context.Valid() && fresh(context) && fresh(context.buffer) && context.process == f
      invariant context.message == Sequences.Flatten(pieces[..i])
    {
      Sequences.FlattenSnoc(pieces[..i], pieces[i]);
      assert pieces[..i] + [pieces[i]] == pieces[..i + 1];
      context.Update(pieces[i]);
    }
    assert pieces[..|pieces|] == pieces;
    output := context.Finish();
  }
}
