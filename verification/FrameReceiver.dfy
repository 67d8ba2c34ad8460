/**
 * The receiving half of a connection: a state machine that reassembles frames
 * from whatever pieces the socket delivers.  A frame starts with a header of 16
 * bytes whose last four are the length of the whole frame.
 */
module FrameReceiver {
  import opened Serialization
  import opened Sequences
  import opened MessageBuffer

  /** The length field of a header: a little-endian integer at offset 12. */
  function TotalLength(s: bytes): nat
    requires |s| >= HEADER
  {
    IntValue(s[12..16])
  }

  // ----- What a stream of bytes means -----

  /** A stream in parts: whole frames, what is left behind them, and whether a length field is too small. */
  datatype Parsed = Parsed(frames: seq<bytes>, rest: bytes, corrupt: bool)

  /**
   * The frames a receiver can hand out.  It looks at the length field only when
   * a byte behind the header has arrived.
   */
  function Parse(s: bytes): (p: Parsed)
    decreases |s|
  {
    if |s| <= HEADER then Parsed([], s, false)
    else if TotalLength(s) < HEADER then Parsed([], s, true)
    else if |s| < TotalLength(s) then Parsed([], s, false)
    else
      var p := Parse(s[TotalLength(s)..]);
      p.(frames := [s[..TotalLength(s)]] + p.frames)
  }

  /** The complete frames of a stream. */
  function Frames(s: bytes): seq<bytes>
    decreases |s|
  {
    if |s| < HEADER || TotalLength(s) < HEADER || |s| < TotalLength(s) then []
    else [s[..TotalLength(s)]] + Frames(s[TotalLength(s)..])
  }

  lemma LengthOfPrefix(a: bytes, b: bytes)
    requires |a| >= HEADER
    ensures TotalLength(a + b) == TotalLength(a)
  {
    assert (a + b)[12..16] == a[12..16];
  }

  /** More bytes only ever add to what has been parsed. */
  lemma {:induction false} ParseConcat(a: bytes, b: bytes)
    requires !Parse(a).corrupt
    ensures
      var p, q := Parse(a), Parse(Parse(a).rest + b);
      Parse(a + b) == q.(frames := p.frames + q.frames)
    decreases |a|
  {
    var q := Parse(Parse(a).rest + b);
    if |a| > HEADER && |a| >= TotalLength(a) {
      var n := TotalLength(a);
      LengthOfPrefix(a, b);
      ParseConcat(a[n..], b);
      assert (a + b)[n..] == a[n..] + b && (a + b)[..n] == a[..n];
      Assoc([a[..n]], Parse(a[n..]).frames, q.frames);
    } else {
      assert [] + q.frames == q.frames;
    }
  }

  /** The frames handed out and what is left make up the stream. */
  lemma {:induction false} ParseCovers(s: bytes)
    ensures s == Flatten(Parse(s).frames) + Parse(s).rest
    decreases |s|
  {
    if |s| > HEADER && HEADER <= TotalLength(s) <= |s| {
      var n, p := TotalLength(s), Parse(s[TotalLength(s)..]);
      ParseCovers(s[n..]);
      assert Parse(s).frames[0] == s[..n] && Parse(s).frames[1..] == p.frames;
      Assoc(s[..n], Flatten(p.frames), p.rest);
      assert s == s[..n] + s[n..];
    } else {
      assert Flatten(Parse(s).frames) + Parse(s).rest == s;
    }
  }

  /** A frame that ends the stream is handed out only if it has a body. */
  lemma {:induction false} LastHasBody(s: bytes)
    requires Parse(s).frames != [] && Parse(s).rest == []
    ensures |Parse(s).frames[|Parse(s).frames| - 1]| > HEADER
    decreases |s|
  {
    var n := TotalLength(s);
    if |s| > n {
      LastHasBody(s[n..]);
    }
  }

  /** What is left behind the frames handed out decides which frames are complete. */
  lemma {:induction false} FramesByRest(s: bytes)
    ensures
      var p := Parse(s);
      if |p.rest| == HEADER && TotalLength(p.rest) == HEADER
      then Frames(s) == p.frames + [p.rest]
      else Frames(s) == p.frames
    decreases |s|
  {
    if |s| > HEADER && HEADER <= TotalLength(s) <= |s| {
      var n := TotalLength(s);
      FramesByRest(s[n..]);
      Assoc([s[..n]], Parse(s[n..]).frames, [Parse(s).rest]);
    } else if |s| == HEADER && TotalLength(s) == HEADER {
      assert s[..HEADER] == s && s[HEADER..] == [];
      assert Frames(s) == [s];
    }
  }

  /** The stream is a sequence of whole frames, the last of which has no body. */
  predicate EndsWithEmptyFrame(s: bytes) {
    var fs := Frames(s);
    fs != [] && Flatten(fs) == s && |fs[|fs| - 1]| == HEADER
  }

  /**
   * The receiver has handed out all complete frames, except that it is late by
   * the last one exactly when that has no body and nothing follows it.
   */
  lemma LateExactlyForEmptyBody(s: bytes)
    ensures EndsWithEmptyFrame(s) ==> Parse(s).frames == Frames(s)[..|Frames(s)| - 1]
    ensures Parse(s).frames == Frames(s) <==> !EndsWithEmptyFrame(s)
  {
    hide Parse, Frames;
    var p, fs := Parse(s), Frames(s);
    FramesByRest(s);
    ParseCovers(s);
    if |p.rest| == HEADER && TotalLength(p.rest) == HEADER {
      FlattenSnoc(p.frames, p.rest);
    } else if Flatten(fs) == s && fs != [] {
      assert p.rest == [];
      LastHasBody(s);
    }
  }

  // ----- The state machine -----

  /** What a read does: the bytes arrive in the buffer, from an offset on. */
  method Read(dst: array<byte>, offset: nat, src: bytes)
    requires offset + |src| <= dst.Length
    modifies dst
    ensures dst[..offset] == old(dst[..offset]) && dst[offset..offset + |src|] == src
  {
    var i := 0;
    while i < |src|
      invariant i <= |src| && dst[..offset] == old(dst[..offset]) && dst[offset..offset + i] == src[..i]
    {
      dst[offset + i] := src[i];
      assert dst[offset..offset + i + 1] == dst[offset..offset + i] + [src[i]];
      assert src[..i + 1] == src[..i] + [src[i]];
      i := i + 1;
    }
    assert src[..i] == src;
  }

  /** Bytes before a chunk and the start of the chunk, with the rest of the chunk. */
  lemma Joined(f: bytes, before: bytes, chunk: bytes, n: nat)
    requires n <= |chunk| && |f| == |before| + n
    requires f[..|before|] == before && f[|before|..|before| + n] == chunk[..n]
    ensures f + chunk[n..] == before + chunk && (n == |chunk| ==> f == before + chunk)
  {
    assert f == before + chunk[..n];
    assert chunk == chunk[..n] + chunk[n..];
  }

  /**
   * The incoming side of a connection.  `corrupt` stands for the undefined
   * state after a header whose length field is less than the header itself.
   */
  class IncomingMessage {
    const messageHeader: array<byte>
    var headerRemaining: nat
    var gotHeader: bool
    var message: array<byte>
    var messagePtr: nat
    var messageRemaining: nat
    var corrupt: bool
    var completed: seq<bytes>

    ghost predicate Valid()
      reads this, messageHeader, message
    {
      && messageHeader.Length == HEADER && headerRemaining <= HEADER && messageHeader != message
      && (gotHeader ==>
            && HEADER <= messagePtr && messagePtr + messageRemaining == message.Length
            && (messageRemaining > 0 || messagePtr == HEADER)
            && TotalLength(message[..messagePtr]) == message.Length)
    }

    /** The bytes of the frame that is under way. */
    ghost function Rest(): bytes
      requires Valid()
      reads this, messageHeader, message
    {
      if gotHeader then message[..messagePtr] else messageHeader[..HEADER - headerRemaining]
    }

    constructor ()
      ensures Valid() && fresh(messageHeader) && fresh(message) && Rest() == [] && !corrupt && completed == []
    {
      messageHeader := new byte[HEADER];
      message := new byte[0];
      headerRemaining, gotHeader, messagePtr, messageRemaining := HEADER, false, 0, 0;
      corrupt, completed := false, [];
    }

    method Reset()
      modifies this
      ensures headerRemaining == HEADER && !gotHeader && messagePtr == 0 && messageRemaining == 0
      ensures message == old(message) && corrupt == old(corrupt) && completed == old(completed)
    {
      gotHeader, headerRemaining, messagePtr, messageRemaining := false, HEADER, 0, 0;
    }

    /** The header is read; with at least one byte behind it, its length field is used. */
    method ReadHeader(chunk: bytes) returns (left: bytes)
      requires Valid() && !corrupt && !gotHeader && chunk != []
      modifies this, messageHeader
      ensures completed == old(completed) && (fresh(message) || message == old(message))
      ensures !corrupt ==> Valid() && Rest() + left == old(Rest()) + chunk && (left == [] <==> !gotHeader)
      ensures corrupt ==> Parse(old(Rest()) + chunk) == Parsed([], old(Rest()) + chunk, true)
    {
      ghost var head := Rest();
      ghost var whole := head + chunk;
      var offset := HEADER - headerRemaining;
      if headerRemaining < |chunk| {
        var n := headerRemaining;
        Read(messageHeader, offset, chunk[..n]);
        left := chunk[n..];
        Joined(messageHeader[..], head, chunk, n);
        LengthOfPrefix(messageHeader[..], left);
        headerRemaining := 0;
        var total := TotalLength(messageHeader[..]);
        if total < HEADER {
          corrupt := true;
          return;
        }
        message := new byte[total];
        Read(message, 0, messageHeader[..]);
        assert message[..HEADER] == messageHeader[..];
        messagePtr, messageRemaining, gotHeader := HEADER, total - HEADER, true;
      } else {
        Read(messageHeader, offset, chunk);
        left := [];
        headerRemaining := headerRemaining - |chunk|;
        Joined(messageHeader[..offset + |chunk|], head, chunk, |chunk|);
      }
    }

    /** The body is read; when it is complete the frame is handed out. */
    method ReadBody(chunk: bytes) returns (left: bytes)
      requires Valid() && !corrupt && gotHeader && chunk != []
      modifies this, message
      ensures Valid() && !corrupt && message == old(message)
      ensures
        if !gotHeader then
          && Rest() == [] && |left| < |old(Rest()) + chunk|
          && exists f :: f + left == old(Rest()) + chunk && |f| == TotalLength(old(Rest()))
                         && completed == old(completed) + [f]
        else
          left == [] && Rest() == old(Rest()) + chunk && completed == old(completed)
    {
      ghost var before := Rest();
      if messageRemaining <= |chunk| {
        var n := messageRemaining;
        Read(message, messagePtr, chunk[..n]);
        left := chunk[n..];
        ghost var f := message[..];
        Joined(f, before, chunk, n);
        completed := completed + [message[..]];
        Reset();
        assert f + left == before + chunk && |f| == TotalLength(before) && completed == old(completed) + [f];
      } else {
        Read(message, messagePtr, chunk);
        left := [];
        Joined(message[..messagePtr + |chunk|], before, chunk, |chunk|);
        messagePtr := messagePtr + |chunk|;
        messageRemaining := messageRemaining - |chunk|;
        LengthOfPrefix(before, chunk);
      }
    }

    /** A read event: the loop that uses up the bytes that are available. */
    method HandleRead(chunk: bytes)
      requires Valid() && !corrupt
      modifies this, messageHeader, message
      ensures fresh(message) || message == old(message)
      ensures
        var p := Parse(old(Rest()) + chunk);
        && corrupt == p.corrupt && completed == old(completed) + p.frames
        && (!corrupt ==> Valid() && Rest() == p.rest)
    {
      var data := chunk;
      ghost var whole := Parse(Rest() + chunk);
      assert completed + whole.frames == old(completed) + whole.frames;
      while data != []
        invariant Valid() && !corrupt && (fresh(message) || message == old(message))
        invariant
          var p := Parse(Rest() + data);
          p.rest == whole.rest && p.corrupt == whole.corrupt && completed + p.frames == old(completed) + whole.frames
        decreases |Rest() + data|, |data|
      {
        ghost var before, done := Rest() + data, completed;
        if !gotHeader {
          data := ReadHeader(data);
          if corrupt {
            assert completed + [] == completed;
            return;
          }
        }
        if gotHeader {
          ghost var head := Rest();
          var left := ReadBody(data);
          if !gotHeader {
            ghost var f :| f + left == head + data && |f| == TotalLength(head) && completed == done + [f];
            CompletesFrame(head, data, f, left);
            Assoc(done, [f], Parse(left).frames);
            assert Rest() + left == left;
          } else {
            assert Rest() + left == before;
          }
          data := left;
        }
      }
      assert Rest() + data == Rest();
      assert completed + [] == completed;
    }
  }

  /** A frame that is complete comes off the front of the stream. */
  lemma CompletesFrame(head: bytes, data: bytes, f: bytes, left: bytes)
    requires |head| >= HEADER && data != [] && f + left == head + data && |f| == TotalLength(head) >= HEADER
    ensures
      var p := Parse(left);
      Parse(head + data) == p.(frames := [f] + p.frames)
  {
    var s := head + data;
    LengthOfPrefix(head, data);
    assert s[..|f|] == f && s[|f|..] == left;
  }

  // ----- Any number of read events -----

  /** The receiver between events: what `HandleRead` leaves behind. */
  datatype Receiver = Receiver(completed: seq<bytes>, rest: bytes, corrupt: bool)

  function Receive(r: Receiver, chunk: bytes): Receiver {
    if r.corrupt then r
    else
      var p := Parse(r.rest + chunk);
      Receiver(r.completed + p.frames, p.rest, p.corrupt)
  }

  function ReceiveAll(r: Receiver, chunks: seq<bytes>): Receiver
    decreases |chunks|
  {
    if chunks == [] then r else ReceiveAll(Receive(r, chunks[0]), chunks[1..])
  }

  /** A stream that is corrupt stays so, with the same frames before the bad header. */
  lemma {:induction false} CorruptStays(a: bytes, b: bytes)
    requires Parse(a).corrupt
    ensures Parse(a + b).corrupt && Parse(a + b).frames == Parse(a).frames
    decreases |a|
  {
    LengthOfPrefix(a, b);
    if TotalLength(a) >= HEADER {
      var n := TotalLength(a);
      CorruptStays(a[n..], b);
      assert (a + b)[n..] == a[n..] + b && (a + b)[..n] == a[..n];
    }
  }

  lemma {:induction false} CorruptIgnores(r: Receiver, chunks: seq<bytes>)
    requires r.corrupt
    ensures ReceiveAll(r, chunks) == r
    decreases |chunks|
  {
    if chunks != [] { CorruptIgnores(r, chunks[1..]); }
  }

  lemma {:induction false} ReceiveAllParses(r: Receiver, chunks: seq<bytes>)
    requires !r.corrupt && Parse(r.rest) == Parsed([], r.rest, false)
    ensures
      var t, p := ReceiveAll(r, chunks), Parse(r.rest + Flatten(chunks));
      t.corrupt == p.corrupt && t.completed == r.completed + p.frames && (!t.corrupt ==> t.rest == p.rest)
    decreases |chunks|
  {
    if chunks == [] {
      assert r.rest + [] == r.rest && r.completed + [] == r.completed;
    } else {
      var a, b := r.rest + chunks[0], Flatten(chunks[1..]);
      var r1 := Receive(r, chunks[0]);
      Assoc(r.rest, chunks[0], b);
      if r1.corrupt {
        CorruptStays(a, b);
        CorruptIgnores(r1, chunks[1..]);
      } else {
        RestIsUnderWay(a);
        ReceiveAllParses(r1, chunks[1..]);
        ParseConcat(a, b);
        Assoc(r.completed, Parse(a).frames, Parse(r1.rest + b).frames);
      }
    }
  }

  lemma {:induction false} RestIsUnderWay(s: bytes)
    requires !Parse(s).corrupt
    ensures Parse(Parse(s).rest) == Parsed([], Parse(s).rest, false)
    decreases |s|
  {
    if |s| > HEADER && |s| >= TotalLength(s) {
      RestIsUnderWay(s[TotalLength(s)..]);
    }
  }

  /**
   * Reassembly does not depend on how the stream was cut into read events: what
   * has been handed out, what is under way, and whether a bad header was met are
   * those of the bytes received so far.
   */
  lemma FragmentationDoesNotMatter(chunks: seq<bytes>)
    ensures
      var t, p := ReceiveAll(Receiver([], [], false), chunks), Parse(Flatten(chunks));
      t.corrupt == p.corrupt && t.completed == p.frames && (!t.corrupt ==> t.rest == p.rest)
  {
    ReceiveAllParses(Receiver([], [], false), chunks);
    assert [] + Flatten(chunks) == Flatten(chunks);
    assert [] + Parse(Flatten(chunks)).frames == Parse(Flatten(chunks)).frames;
  }
}
