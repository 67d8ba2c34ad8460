/**
 * The two halves of a connection together: what is sent is what is received.
 */
module MessageTransport {
  import opened Sequences
  import opened Serialization
  import opened MessageBuffer
  import opened FrameReceiver
  import opened SendQueue

  /** A message buffer as it is built: header and payload, and perhaps an extended buffer. */
  function BuildMessage(protocol: byte, flags: byte, id: nat, gid: nat, payload: bytes, ext: Option<bytes>): Buffer {
    var total := HEADER + |payload| + (if ext.Some? then |ext.value| else 0);
    Buffer(EncodeHeader(protocol, flags, id, gid, total) + payload, ext, 0, 0)
  }

  /** A frame with a body whose length field is its length. */
  predicate WellFormed(f: bytes) { |f| > HEADER && TotalLength(f) == |f| }

  predicate AllWellFormed(fs: seq<bytes>) { forall i :: 0 <= i < |fs| ==> WellFormed(fs[i]) }

  /** Every message that has a body and whose length has 32 bits is a well-formed frame. */
  lemma BuiltMessageIsFrame(protocol: byte, flags: byte, id: nat, gid: nat, payload: bytes, ext: Option<bytes>)
    requires
      var body := |payload| + (if ext.Some? then |ext.value| else 0);
      0 < body && HEADER + body < P32
    ensures
      var b := BuildMessage(protocol, flags, id, gid, payload, ext);
      Fresh(b) && WellFormed(b.Whole())
  {
    var b := BuildMessage(protocol, flags, id, gid, payload, ext);
    var total := HEADER + |payload| + (if ext.Some? then |ext.value| else 0);
    var h := EncodeHeader(protocol, flags, id, gid, total);
    assert b.Whole()[12..16] == h[12..16] == EncodeInt(total, 4);
    Widths();
    IntRoundTrip(total, 4);
  }

  /** A message without a body is one complete frame, and is not handed out when it has all arrived. */
  lemma EmptyMessageIsLate(protocol: byte, flags: byte, id: nat, gid: nat)
    ensures
      var s := BuildMessage(protocol, flags, id, gid, [], None).Whole();
      Frames(s) == [s] && Parse(s) == Parsed([], s, false)
  {
    var s := BuildMessage(protocol, flags, id, gid, [], None).Whole();
    var h := EncodeHeader(protocol, flags, id, gid, HEADER);
    assert s == h && s[12..16] == EncodeInt(HEADER, 4);
    Widths();
    IntRoundTrip(HEADER, 4);
    assert s[..HEADER] == s && s[HEADER..] == [] && Frames([]) == [];
  }

  /** How many of the frames are complete within the first `n` bytes of their concatenation. */
  function Complete(fs: seq<bytes>, n: nat): (k: nat)
    ensures k <= |fs|
    decreases |fs|
  {
    if fs == [] || n < |fs[0]| then 0 else 1 + Complete(fs[1..], n - |fs[0]|)
  }

  /** A receiver that has got a prefix of a stream of frames has handed out exactly the complete ones. */
  lemma {:induction false} ParsePrefix(fs: seq<bytes>, s: bytes)
    requires AllWellFormed(fs) && s <= Flatten(fs)
    ensures !Parse(s).corrupt && Parse(s).frames == fs[..Complete(fs, |s|)]
    decreases |fs|
  {
    if fs != [] {
      var f, whole := fs[0], Flatten(fs);
      assert WellFormed(f);
      if |s| < |f| {
        assert s == f[..|s|];
        if |s| > HEADER {
          assert s + f[|s|..] == f;
          LengthOfPrefix(s, f[|s|..]);
        }
      } else {
        var s' := s[|f|..];
        assert s == f + s' && s' <= Flatten(fs[1..]);
        ParsePrefix(fs[1..], s');
        LengthOfPrefix(f, s');
        assert s[..|f|] == f;
        var k := Complete(fs[1..], |s'|);
        assert [f] + fs[1..][..k] == fs[..k + 1];
      }
    }
  }

  lemma {:induction false} AllComplete(fs: seq<bytes>)
    ensures Complete(fs, |Flatten(fs)|) == |fs|
  {
    if fs != [] { AllComplete(fs[1..]); }
  }

  /**
   * Over the whole connection, for every sequence of sends, partial writes and
   * readiness events on one side, and every way in which the bytes that the
   * socket took arrive in read events on the other: the receiver has handed out
   * exactly the messages whose bytes have all arrived, in the order they were
   * sent and byte for byte; when all bytes have arrived these are all messages.
   */
  lemma ReceiverSeesMessagesSent(s: Sender, events: seq<Event>, t: Sender, chunks: seq<bytes>)
    requires s.c.queue == [] && s.c.accepted == [] && s.sent == [] && !s.broken
    requires Reaches(s, events, t) && AllWellFormed(t.sent) && Flatten(chunks) <= t.c.accepted
    ensures
      var r := ReceiveAll(Receiver([], [], false), chunks);
      && !r.corrupt
      && r.completed == t.sent[..Complete(t.sent, |Flatten(chunks)|)]
      && (Flatten(chunks) == Flatten(t.sent) ==> r.completed == t.sent)
  {
    NothingLostOrReordered(s, events, t);
    FragmentationDoesNotMatter(chunks);
    ParsePrefix(t.sent, Flatten(chunks));
    AllComplete(t.sent);
    assert t.sent[..|t.sent|] == t.sent;
  }
}
