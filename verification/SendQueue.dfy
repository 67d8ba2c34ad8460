/**
 * The sending half of a connection: a queue of message buffers that survives
 * any partial writes.  A message is sent as its primary buffer followed by its
 * extended buffer; two pointers remember how much of each the socket has taken.
 */
module SendQueue {
  import opened Sequences
  import opened Serialization

  /** A message buffer; `ext` is `None` when there is no extended buffer. */
  datatype Buffer = Buffer(data: bytes, ext: Option<bytes>, dataPtr: nat, extPtr: nat) {
    predicate Valid() {
      && dataPtr <= |data|
      && (ext.Some? ==> extPtr <= |ext.value| && (extPtr > 0 ==> dataPtr == |data|))
    }

    function Whole(): bytes { if ext.Some? then data + ext.value else data }

    /** What the socket has not taken yet. */
    function Left(): bytes
      requires Valid()
    {
      data[dataPtr..] + (if ext.Some? then ext.value[extPtr..] else [])
    }

    /** The pointers after the socket has taken `n` more bytes. */
    function Advance(n: nat): Buffer
      requires Valid() && n <= |Left()|
    {
      var remaining := |data| - dataPtr;
      if n < remaining then this.(dataPtr := dataPtr + n)
      else if ext.Some? then this.(dataPtr := |data|, extPtr := extPtr + (n - remaining))
      else this.(dataPtr := |data|)
    }
  }

  /** Answers of the socket to a write: it takes some bytes, it would block, or it is broken. */
  datatype WriteResult = Wrote(n: nat) | Blocked | Broken

  /** A queue in order: every message has something left to send. */
  predicate Ready(q: seq<Buffer>) {
    forall i :: 0 <= i < |q| ==> q[i].Valid() && q[i].Left() != []
  }

  ghost function Unsent(q: seq<Buffer>): bytes
    requires Ready(q)
  {
    if q == [] then [] else q[0].Left() + Unsent(q[1..])
  }

  /** A write of `len` bytes takes at least one of them and at most all. */
  function Taken(r: WriteResult, len: nat): nat
    requires r.Wrote? && len > 0
  {
    if r.n == 0 then 1 else if r.n < len then r.n else len
  }

  lemma AdvanceTakes(b: Buffer, n: nat)
    requires b.Valid() && n <= |b.Left()|
    ensures b.Advance(n).Valid() && b.Advance(n).Left() == b.Left()[n..]
    ensures b.Advance(n).Whole() == b.Whole()
  {
    var d, e := b.data[b.dataPtr..], if b.ext.Some? then b.ext.value[b.extPtr..] else [];
    if n < |d| {
      assert b.data[b.dataPtr + n..] == d[n..];
      assert (d + e)[n..] == d[n..] + e;
    } else {
      var k := n - |d|;
      assert b.ext.Some? ==> b.ext.value[b.extPtr + k..] == e[k..];
      assert (d + e)[n..] == [] + e[k..];
    }
  }

  lemma UnsentFront(q: seq<Buffer>, b: Buffer)
    requires Ready(q) && q != [] && b.Valid() && b.Left() != []
    ensures Ready(q[0 := b]) && Unsent(q[0 := b]) == b.Left() + Unsent(q[1..])
  {
    assert q[0 := b][1..] == q[1..];
  }

  /**
   * Flushing, with the socket's answers given: write the front message, go on
   * after a partial write, drop the message when it is complete, stop when the
   * socket would block or is broken.
   */
  ghost function Flush(q: seq<Buffer>, answers: seq<WriteResult>): (r: (seq<Buffer>, seq<WriteResult>, bool))
    requires Ready(q)
    ensures Ready(r.0)
    decreases |answers|
  {
    if q == [] then (q, answers, true)
    else if answers == [] then (q, answers, true)
    else if answers[0].Blocked? then (q, answers[1..], true)
    else if answers[0].Broken? then (q, answers[1..], false)
    else
      var n := Taken(answers[0], |q[0].Left()|);
      AdvanceTakes(q[0], n);
      if n == |q[0].Left()| then Flush(q[1..], answers[1..])
      else Flush(q[0 := q[0].Advance(n)], answers[1..])
  }

  lemma Drop(l: bytes, u: bytes, n: nat, k: nat)
    requires n <= |l| && n + k <= |l| + |u|
    ensures (l + u)[n + k..] == (l[n..] + u)[k..]
  {
  }

  /** Nothing is lost, doubled or reordered: the socket takes a prefix of what was unsent. */
  lemma {:induction false} FlushTakesPrefix(q: seq<Buffer>, answers: seq<WriteResult>) returns (k: nat)
    requires Ready(q)
    ensures k <= |Unsent(q)| && Unsent(Flush(q, answers).0) == Unsent(q)[k..]
    decreases |answers|
  {
    k := 0;
    if q != [] && answers != [] && answers[0].Wrote? {
      var l, u := q[0].Left(), Unsent(q[1..]);
      var n := Taken(answers[0], |l|);
      AdvanceTakes(q[0], n);
      if n == |l| {
        k := FlushTakesPrefix(q[1..], answers[1..]);
        assert l[n..] + u == u;
      } else {
        UnsentFront(q, q[0].Advance(n));
        k := FlushTakesPrefix(q[0 := q[0].Advance(n)], answers[1..]);
      }
      Drop(l, u, n, k);
      k := n + k;
    }
  }

  /** A socket that takes bytes often enough empties the queue. */
  lemma {:induction false} FlushEmpties(q: seq<Buffer>, answers: seq<WriteResult>)
    requires Ready(q) && |answers| >= |Unsent(q)|
    requires forall i :: 0 <= i < |Unsent(q)| ==> answers[i].Wrote?
    ensures Flush(q, answers).0 == [] && Flush(q, answers).2
    decreases |answers|
  {
    if q != [] {
      var l, u := q[0].Left(), Unsent(q[1..]);
      var n := Taken(answers[0], |l|);
      AdvanceTakes(q[0], n);
      if n == |l| {
        FlushEmpties(q[1..], answers[1..]);
      } else {
        UnsentFront(q, q[0].Advance(n));
        FlushEmpties(q[0 := q[0].Advance(n)], answers[1..]);
      }
    }
  }

  /** How many answers of the socket a flush uses. */
  ghost function Used(q: seq<Buffer>, answers: seq<WriteResult>): (n: nat)
    requires Ready(q)
    ensures n <= |answers|
    decreases |answers|
  {
    if q == [] || answers == [] then 0
    else if !answers[0].Wrote? then 1
    else
      var n := Taken(answers[0], |q[0].Left()|);
      AdvanceTakes(q[0], n);
      if n == |q[0].Left()| then 1 + Used(q[1..], answers[1..])
      else 1 + Used(q[0 := q[0].Advance(n)], answers[1..])
  }

  /**
   * A flush goes on as long as the socket takes bytes: all answers it uses but
   * the last are such.  It leaves something only when the last answer is not
   * one, or when there is no other; and it fails exactly when the last says
   * that the socket is broken.
   */
  lemma {:induction false} FlushStops(q: seq<Buffer>, answers: seq<WriteResult>)
    requires Ready(q)
    ensures var n, r := Used(q, answers), Flush(q, answers);
            && r.1 == answers[n..] && (forall i :: 0 <= i < n - 1 ==> answers[i].Wrote?)
            && (r.0 == [] ==> n == 0 || answers[n - 1].Wrote?)
            && (r.0 != [] ==> n == |answers| || (n > 0 && !answers[n - 1].Wrote?))
            && (r.2 <==> n == 0 || !answers[n - 1].Broken?)
    decreases |answers|
  {
    if q != [] && answers != [] && answers[0].Wrote? {
      var n := Taken(answers[0], |q[0].Left()|);
      AdvanceTakes(q[0], n);
      var rest := if n == |q[0].Left()| then q[1..] else q[0 := q[0].Advance(n)];
      FlushStops(rest, answers[1..]);
      var k := Used(rest, answers[1..]);
      assert answers[1..][k..] == answers[k + 1..];
      assert forall i :: 0 < i < |answers| ==> answers[i] == answers[1..][i - 1];
    }
  }

  // ----- The connection -----

  datatype Connection = Connection(
    queue: seq<Buffer>,
    interest: bool,
    connected: bool,
    accepted: bytes,
    answers: seq<WriteResult>)

  /** A message as it is handed to the connection: nothing of it is sent, and it is not empty. */
  predicate Fresh(b: Buffer) { b.dataPtr == 0 && b.extPtr == 0 && b.data != [] }

  lemma {:induction false} UnsentSnoc(q: seq<Buffer>, b: Buffer)
    requires Ready(q) && Fresh(b)
    ensures Ready(q + [b]) && Unsent(q + [b]) == Unsent(q) + b.Whole()
  {
    assert b.Left() == b.Whole();
    if q == [] {
      assert q + [b] == [b] && [b][1..] == [];
    } else {
      UnsentSnoc(q[1..], b);
      assert (q + [b])[1..] == q[1..] + [b];
      Assoc(q[0].Left(), Unsent(q[1..]), b.Whole());
    }
  }

  /** The queue after a flush, and what the socket has taken by then. */
  ghost function Flushed(c: Connection): (Connection, bool)
    requires Ready(c.queue)
  {
    var (q, answers, ok) := Flush(c.queue, c.answers);
    var whole := c.accepted + Unsent(c.queue);
    FlushShrinks(c.queue, c.answers);
    (c.(queue := q, answers := answers, accepted := whole[..|whole| - |Unsent(q)|]), ok)
  }

  lemma FlushShrinks(q: seq<Buffer>, answers: seq<WriteResult>)
    requires Ready(q)
    ensures |Unsent(Flush(q, answers).0)| <= |Unsent(q)|
  {
    var k := FlushTakesPrefix(q, answers);
  }

  ghost function Send(c: Connection, b: Buffer): (Connection, bool)
    requires Ready(c.queue) && Fresh(b)
  {
    UnsentSnoc(c.queue, b);
    var (d, ok) := Flushed(c.(queue := c.queue + [b]));
    if !ok then (d, false)
    else if c.queue == [] && d.queue != [] then (d.(interest := true), true)
    else if c.queue != [] && d.queue == [] then (d.(interest := false), true)
    else (d, true)
  }

  ghost function Writable(c: Connection, connectError: bool): (Connection, bool)
    requires Ready(c.queue)
  {
    if !c.connected then
      if connectError then (c, false) else (c.(connected := true), true)
    else
      var (d, ok) := Flushed(c);
      (if ok && d.queue == [] then d.(interest := false) else d, ok)
  }

  /**
   * The outgoing side of a connection.  `accepted` is what the socket has
   * taken, `answers` how it will answer the writes to come (a socket without
   * an answer would block).
   */
  class Outgoing {
    var sendQueue: seq<Buffer>
    var writeInterest: bool
    var connected: bool
    var accepted: bytes
    var answers: seq<WriteResult>

    constructor (writeInterest: bool, answers: seq<WriteResult>)
      ensures sendQueue == [] && accepted == [] && !connected
      ensures this.writeInterest == writeInterest && this.answers == answers
    {
      sendQueue, accepted, connected := [], [], false;
      this.writeInterest, this.answers := writeInterest, answers;
    }

    /** The system call, retried when it is interrupted: the number of bytes taken, or an error. */
    method Writev(vec: bytes) returns (result: WriteResult)
      requires vec != []
      modifies this`accepted, this`answers
      ensures answers == if old(answers) == [] then [] else old(answers)[1..]
      ensures
        if old(answers) == [] || !old(answers)[0].Wrote? then
          accepted == old(accepted) && result == if old(answers) == [] then Blocked else old(answers)[0]
        else
          var n := Taken(old(answers)[0], |vec|);
          result == Wrote(n) && accepted == old(accepted) + vec[..n]
    {
      if answers == [] {
        return Blocked;
      }
      var r := answers[0];
      answers := answers[1..];
      if !r.Wrote? {
        return r;
      }
      var n := Taken(r, |vec|);
      accepted := accepted + vec[..n];
      return Wrote(n);
    }

    /** The loop that writes the front message and moves its pointers or drops it. */
    method FlushSendQueue() returns (ok: bool)
      requires Ready(sendQueue)
      modifies this`sendQueue, this`accepted, this`answers
      ensures Ready(sendQueue) && (sendQueue, answers, ok) == Flush(old(sendQueue), old(answers))
      ensures accepted + Unsent(sendQueue) == old(accepted) + Unsent(old(sendQueue))
    {
      while sendQueue != []
        invariant Ready(sendQueue) && Flush(sendQueue, answers) == Flush(old(sendQueue), old(answers))
        invariant accepted + Unsent(sendQueue) == old(accepted) + Unsent(old(sendQueue))
        decreases |Unsent(sendQueue)|
      {
        var cbp := sendQueue[0];
        ghost var taken, u := accepted, Unsent(sendQueue[1..]);
        var vec := Gather(cbp);
        var result := Writev(vec);
        if result.Blocked? {
          return true;
        }
        if result.Broken? {
          return false;
        }
        AdvanceTakes(cbp, result.n);
        SplitTaken(taken, vec, u, result.n);
        if result.n < |vec| {
          cbp := MovePointers(cbp, result.n);
          UnsentFront(sendQueue, cbp);
          sendQueue := sendQueue[0 := cbp];
        } else {
          assert vec[result.n..] + u == u;
          sendQueue := sendQueue[1..];
        }
      }
      return true;
    }

    ghost function Value(): Connection
      reads this
    {
      Connection(sendQueue, writeInterest, connected, accepted, answers)
    }

    /** Queues a message and sends what can be sent; the poll interest follows the queue. */
    method SendMessage(cbp: Buffer) returns (ok: bool)
      requires Ready(sendQueue) && Fresh(cbp)
      modifies this
      ensures (Value(), ok) == Send(old(Value()), cbp)
    {
      var initiallyEmpty := sendQueue == [];
      UnsentSnoc(sendQueue, cbp);
      sendQueue := sendQueue + [cbp];
      ghost var whole := accepted + Unsent(sendQueue);
      ok := FlushSendQueue();
      assert accepted == whole[..|whole| - |Unsent(sendQueue)|];
      if !ok {
        return;
      }
      if initiallyEmpty && sendQueue != [] {
        writeInterest := true;
      } else if !initiallyEmpty && sendQueue == [] {
        writeInterest := false;
      }
    }

    /** The socket is writable: the connection is established, or the queue is flushed. */
    method HandleWriteReadiness(connectError: bool) returns (ok: bool)
      requires Ready(sendQueue)
      modifies this
      ensures (Value(), ok) == Writable(old(Value()), connectError)
    {
      if !connected {
        if connectError {
          return false;
        }
        connected := true;
        return true;
      }
      ghost var whole := accepted + Unsent(sendQueue);
      ok := FlushSendQueue();
      assert accepted == whole[..|whole| - |Unsent(sendQueue)|];
      if ok && sendQueue == [] {
        writeInterest := false;
      }
    }
  }

  /** The two parts of a message that are still to be written. */
  method Gather(cbp: Buffer) returns (vec: bytes)
    requires cbp.Valid()
    ensures vec == cbp.Left()
  {
    vec := [];
    if |cbp.data| - cbp.dataPtr > 0 {
      vec := cbp.data[cbp.dataPtr..];
    }
    if cbp.ext.Some? && |cbp.ext.value| - cbp.extPtr > 0 {
      vec := vec + cbp.ext.value[cbp.extPtr..];
    }
  }

  /** After a partial write: first the primary buffer, then the extended one. */
  method MovePointers(cbp: Buffer, n: nat) returns (moved: Buffer)
    requires cbp.Valid() && n < |cbp.Left()|
    ensures moved == cbp.Advance(n)
  {
    moved := cbp;
    var nwritten := n;
    var remaining := |cbp.data| - cbp.dataPtr;
    if remaining > 0 {
      if nwritten < remaining {
        moved := moved.(dataPtr := moved.dataPtr + nwritten);
        return;
      } else {
        nwritten := nwritten - remaining;
        moved := moved.(dataPtr := moved.dataPtr + remaining);
      }
    }
    if moved.ext.Some? {
      moved := moved.(extPtr := moved.extPtr + nwritten);
    }
  }

  lemma SplitTaken(taken: bytes, l: bytes, u: bytes, n: nat)
    requires n <= |l|
    ensures taken + (l + u) == taken + l[..n] + (l[n..] + u)
  {
  }

  // ----- Any sequence of sends and readiness events -----

  datatype Event = SendEvent(b: Buffer) | WriteReady(connectError: bool)

  /** A connection with the messages given to it so far, and whether an error has ended it. */
  datatype Sender = Sender(c: Connection, sent: seq<bytes>, broken: bool)

  ghost predicate Accepts(s: Sender, e: Event) {
    !s.broken && Ready(s.c.queue) && (e.SendEvent? ==> Fresh(e.b))
  }

  ghost function Next(s: Sender, e: Event): Sender
    requires Accepts(s, e)
  {
    match e
    case SendEvent(b) =>
      var (c, ok) := Send(s.c, b);
      Sender(c, s.sent + [b.Whole()], !ok)
    case WriteReady(connectError) =>
      var (c, ok) := Writable(s.c, connectError);
      Sender(c, s.sent, !ok)
  }

  ghost predicate Reaches(s: Sender, events: seq<Event>, t: Sender)
    decreases |events|
  {
    if events == [] then s == t
    else Accepts(s, events[0]) && Reaches(Next(s, events[0]), events[1..], t)
  }

  ghost predicate Inv(s: Sender) {
    && Ready(s.c.queue)
    && s.c.accepted + Unsent(s.c.queue) == Flatten(s.sent)
    && (!s.broken && s.c.queue != [] ==> s.c.interest)
  }

  /** A flush moves bytes from the queue to the socket. */
  lemma FlushedKeeps(c: Connection)
    requires Ready(c.queue)
    ensures
      var (d, ok) := Flushed(c);
      && Ready(d.queue) && d.accepted + Unsent(d.queue) == c.accepted + Unsent(c.queue)
      && c.accepted <= d.accepted && d.interest == c.interest && d.connected == c.connected
      && (c.queue == [] ==> d.queue == [])
  {
    var k := FlushTakesPrefix(c.queue, c.answers);
    var u := Unsent(c.queue);
    TakePrefix(c.accepted, u, k);
  }

  lemma TakePrefix(a: bytes, u: bytes, k: nat)
    requires k <= |u|
    ensures (a + u)[..|a + u| - |u[k..]|] + u[k..] == a + u && a <= (a + u)[..|a + u| - |u[k..]|]
  {
  }

  lemma NextOk(s: Sender, e: Event)
    requires Inv(s) && Accepts(s, e)
    ensures Inv(Next(s, e)) && s.c.accepted <= Next(s, e).c.accepted
  {
    hide Flushed;
    match e
    case SendEvent(b) =>
      UnsentSnoc(s.c.queue, b);
      FlattenSnoc(s.sent, b.Whole());
      Assoc(s.c.accepted, Unsent(s.c.queue), b.Whole());
      FlushedKeeps(s.c.(queue := s.c.queue + [b]));
    case WriteReady(connectError) =>
      FlushedKeeps(s.c);
  }

  /**
   * Under every sequence of sends, readiness events and partial writes: what
   * the socket has taken followed by what is left in the queue is the
   * concatenation of all messages, each its primary and then its extended
   * buffer, in the order they were sent; and while the connection stands, a
   * queue that is not empty has write interest registered.
   */
  lemma {:induction false} NothingLostOrReordered(s: Sender, events: seq<Event>, t: Sender)
    requires Inv(s) && Reaches(s, events, t)
    ensures Ready(t.c.queue)
    ensures t.c.accepted + Unsent(t.c.queue) == Flatten(t.sent)
    ensures !t.broken && t.c.queue != [] ==> t.c.interest
    ensures s.c.accepted <= t.c.accepted
    decreases |events|
  {
    if events != [] {
      NextOk(s, events[0]);
      NothingLostOrReordered(Next(s, events[0]), events[1..], t);
    }
  }

  // ----- Write interest -----

  /** Write interest is registered exactly while something is queued. */
  ghost predicate InterestFits(s: Sender) {
    s.broken || (s.c.interest <==> s.c.queue != [])
  }

  /** Once a connection is established, every readiness event that does not break it sets the interest right. */
  lemma WritableSettles(s: Sender, connectError: bool)
    requires Inv(s) && Accepts(s, WriteReady(connectError))
    ensures var t := Next(s, WriteReady(connectError));
            if s.c.connected then t.c.connected && InterestFits(t)
            else t == s.(c := s.c.(connected := !connectError), broken := connectError)
  {
    hide Flushed;
    FlushedKeeps(s.c);
    NextOk(s, WriteReady(connectError));
  }

  /** From then on it stays right, whatever is sent and however the socket answers. */
  lemma {:induction false} InterestStaysRight(s: Sender, events: seq<Event>, t: Sender)
    requires Inv(s) && s.c.connected && InterestFits(s) && Reaches(s, events, t)
    ensures t.c.connected && InterestFits(t)
    decreases |events|
  {
    hide Flushed, Inv;
    if events != [] {
      NextFits(s, events[0]);
      NextOk(s, events[0]);
      InterestStaysRight(Next(s, events[0]), events[1..], t);
    }
  }

  lemma NextFits(s: Sender, e: Event)
    requires Inv(s) && s.c.connected && InterestFits(s) && Accepts(s, e)
    ensures Next(s, e).c.connected && InterestFits(Next(s, e))
  {
    hide Flushed;
    match e
    case SendEvent(b) =>
      UnsentSnoc(s.c.queue, b);
      FlushedKeeps(s.c.(queue := s.c.queue + [b]));
      NextOk(s, e);
    case WriteReady(connectError) =>
      WritableSettles(s, connectError);
  }
}
