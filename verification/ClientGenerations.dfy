/**
 * The two places where the client keeps the generation of its lock.  The
 * sequencer of a `lock` call is filled in by the reply or by the grant that is
 * awaited.  The generation of the handle, which `get_sequencer` hands out, is
 * also stored by a grant that is already known, so that a stale datagram can
 * set it back.
 */
module ClientGenerations {
  import opened Sequences
  import opened Serialization
  import opened Keepalive
  import opened ClientHandler
  import opened Sessions
  import opened NotificationProtocol

  /** The generation of the latest grant for a handle, 0 when there is none. */
  function Latest(gs: seq<Grant>, h: nat): nat {
    if gs == [] then 0
    else if gs[|gs| - 1].handle == h then gs[|gs| - 1].generation
    else Latest(gs[..|gs| - 1], h)
  }

  lemma LatestSnoc(gs: seq<Grant>, g: Grant, h: nat)
    ensures Latest(gs + [g], h) == if g.handle == h then g.generation else Latest(gs, h)
  {
    assert (gs + [g])[..|gs|] == gs;
  }

  lemma {:induction false} NoneLatest(gs: seq<Grant>, h: nat)
    requires forall i :: 0 <= i < |gs| ==> gs[i].handle != h
    ensures Latest(gs, h) == 0
  {
    if gs != [] {
      NoneLatest(gs[..|gs| - 1], h);
    }
  }

  // ----- The sequencer -----

  /**
   * Grants are for handles that are open, and a handle that holds the lock by a
   * `lock` call has the latest grant in its sequencer.
   */
  ghost predicate Fills(handles: map<nat, HandleState>, grants: seq<Grant>, h: nat) {
    if h in handles then
      handles[h].status.Granted? && handles[h].sequencer.Some? ==>
        handles[h].sequencer.value.generation == Latest(grants, h)
    else
      Latest(grants, h) == 0
  }

  ghost predicate Tracks(c: Client) {
    forall h :: Fills(c.handles, c.grants, h)
  }

  lemma ActTracks(c: Client, n: Notification)
    requires Tracks(c) && Accepts(c, n)
    ensures Tracks(Act(c, n))
  {
    var d := Act(c, n);
    forall h ensures Fills(d.handles, d.grants, h) {
      assert Fills(c.handles, c.grants, h);
      if n.event.LockGranted? {
        LatestSnoc(c.grants, Grant(n.handle, n.event.generation), h);
      }
    }
  }

  lemma CrashTracks(c: Client, n: Notification)
    requires Tracks(c) && !Accepts(c, n)
    ensures Tracks(Crash(c, n))
  {
    forall h ensures Fills(Crash(c, n).handles, c.grants, h) {
      assert Fills(c.handles, c.grants, h);
    }
  }

  lemma CallFills(c: Client, call: Call, h: nat)
    requires Fills(c.handles, c.grants, h) && Possible(c, call)
    ensures Fills(Called(c, call).handles, Called(c, call).grants, h)
  {
    hide Latest;
    if call.OpenReply? || call.LockReply? || call.TryLockReply? {
      LatestSnoc(c.grants, Grant(call.handle, call.generation), h);
    }
  }

  lemma CallTracks(c: Client, call: Call)
    requires Tracks(c) && Possible(c, call)
    ensures Tracks(Called(c, call))
  {
    hide Called, Possible;
    forall h ensures Fills(Called(c, call).handles, Called(c, call).grants, h) {
      CallFills(c, call, h);
    }
  }

  lemma {:induction false} ProcessTracks(c: Client, count: nat, s: bytes)
    requires Tracks(c)
    ensures Tracks(Process(c, count, s).c)
    decreases count
  {
    hide Tracks, Act, Crash, Accepts, DecodeHead, DecodePayload;
    if count > 0 && DecodeHead(s).Ok? {
      var h, t := DecodeHead(s).value.0, DecodeHead(s).value.1;
      if h.handle in c.handles && DecodePayload(h, t).Ok? {
        var n := Notification(h.handle, DecodePayload(h, t).value.0);
        if Accepts(c, n) {
          ActTracks(c, n);
          ProcessTracks(Act(c, n), count - 1, DecodePayload(h, t).value.1);
        } else {
          CrashTracks(c, n);
        }
      }
    }
  }

  lemma HandleTracks(c: Client, b: bytes)
    requires Tracks(c)
    ensures Tracks(HandleMessage(c, b).0)
  {
    hide Process;
    forall id: nat, count: nat, s ensures Tracks(Process(c.(sessionId := id), count, s).c) {
      ProcessTracks(c.(sessionId := id), count, s);
    }
    forall count: nat, s ensures Tracks(Process(c, count, s).c) {
      ProcessTracks(c, count, s);
    }
  }

  lemma StepTracks(s: System, step: Step)
    requires Tracks(s.client) && Enabled(s, step)
    ensures Tracks(Apply(s, step).client)
  {
    hide HandleMessage, ServerHandle, Called;
    match step {
      case ClientReceive(b) => HandleTracks(s.client, b);
      case ClientCalls(call) => CallTracks(s.client, call);
      case _ =>
    }
  }

  lemma {:induction false} RunTracks(s: System, steps: seq<Step>, t: System)
    requires Tracks(s.client) && Reaches(s, steps, t)
    ensures Tracks(t.client)
    decreases |steps|
  {
    hide Tracks, Apply, Enabled;
    if steps != [] {
      StepTracks(s, steps[0]);
      RunTracks(Apply(s, steps[0]), steps[1..], t);
    }
  }

  /**
   * In every run, over any network and with any queue: a handle that holds the
   * lock by a `lock` call has in its sequencer the latest grant that the client
   * has learned of, by a reply or by a notification.
   */
  lemma SequencerIsLatestGrant(id: nat, now: int, steps: seq<Step>, t: System, h: nat)
    requires Reaches(Start(id, now), steps, t)
    requires h in t.client.handles && t.client.handles[h].status.Granted? && t.client.handles[h].sequencer.Some?
    ensures t.client.handles[h].sequencer.value.generation == Latest(t.client.grants, h)
  {
    RunTracks(Start(id, now), steps, t);
    assert Fills(t.client.handles, t.client.grants, h);
  }

  // ----- The generation of the handle -----

  predicate Grants(n: Notification, h: nat) { n.handle == h && n.event.LockGranted? }

  /** The last grant for a handle among some notifications. */
  function LastGrant(ns: seq<Notification>, h: nat): (e: Option<Event>)
    ensures e.Some? ==> e.value.LockGranted?
  {
    if ns == [] then None
    else
      match LastGrant(ns[1..], h)
      case Some(e) => Some(e)
      case None => if Grants(ns[0], h) then Some(ns[0].event) else None
  }

  /** The last grant for a handle that is not known when the loop reaches it. */
  function LastNew(ns: seq<Notification>, h: nat, known: nat): (e: Option<Event>)
    ensures e.Some? ==> e.value.LockGranted?
    decreases |ns|
  {
    if ns == [] then None
    else
      match LastNew(ns[1..], h, Farther(known, ns[0]))
      case Some(e) => Some(e)
      case None => if Grants(ns[0], h) && ns[0].event.id > known then Some(ns[0].event) else None
  }

  /** The place of the last new grant: it is new there, and no grant behind it is. */
  lemma {:induction false} LastNewIs(ns: seq<Notification>, h: nat, known: nat) returns (i: nat)
    ensures LastNew(ns, h, known).Some? ==>
              i < |ns| && Grants(ns[i], h) && IsNew(ns, i, known) && ns[i].event == LastNew(ns, h, known).value
    ensures LastNew(ns, h, known).None? ==> i == 0
    ensures forall j :: 0 <= j < |ns| && (LastNew(ns, h, known).Some? ==> i < j) ==>
              !(Grants(ns[j], h) && IsNew(ns, j, known))
    decreases |ns|
  {
    hide IsNew;
    i := 0;
    if ns != [] {
      var k := Farther(known, ns[0]);
      var place := LastNewIs(ns[1..], h, k);
      FirstIsNew(ns, known);
      forall j | 0 < j < |ns| ensures ns[1..][j - 1] == ns[j] && (IsNew(ns, j, known) <==> IsNew(ns[1..], j - 1, k)) {
        NewLater(ns, j, known);
      }
      if LastNew(ns[1..], h, k).Some? {
        i := place + 1;
      }
    }
  }

  lemma FirstIsNew(ns: seq<Notification>, known: nat)
    requires ns != []
    ensures IsNew(ns, 0, known) <==> ns[0].event.id > known
  {
  }

  /** `get_sequencer` hands out the latest grant that the client has learned of. */
  ghost predicate Agrees(c: Client, h: nat) {
    h in c.handles ==> c.handles[h].lockGeneration == Latest(c.grants, h)
  }

  lemma ActGeneration(c: Client, n: Notification, h: nat)
    requires Accepts(c, n) && Valid(n) && h in c.handles
    ensures var d := Act(c, n);
            && h in d.handles && d.lastKnown == Farther(c.lastKnown, n)
            && d.handles[h].lockGeneration == (if Grants(n, h) then n.event.generation else c.handles[h].lockGeneration)
            && Latest(d.grants, h) ==
               (if Grants(n, h) && n.event.id > c.lastKnown then n.event.generation else Latest(c.grants, h))
  {
    hide Latest;
    if n.event.LockGranted? {
      LatestSnoc(c.grants, Grant(n.handle, n.event.generation), h);
    }
  }

  /**
   * The client on a datagram: the generation of the handle becomes that of the
   * last grant in it, known or not; the latest grant that of the last new one.
   */
  lemma {:induction false} DatagramGeneration(c: Client, ns: seq<Notification>, h: nat)
    requires AllValid(ns) && h in c.handles && !ActAll(c, ns).dead
    ensures h in ActAll(c, ns).handles
    ensures var d, e := ActAll(c, ns), LastGrant(ns, h);
            d.handles[h].lockGeneration == if e.Some? then e.value.generation else c.handles[h].lockGeneration
    ensures Latest(ActAll(c, ns).grants, h) == LatestAfter(c, ns, h)
    decreases |ns|
  {
    hide Act, Accepts, Latest, Valid;
    if ns != [] {
      ActGeneration(c, ns[0], h);
      DatagramGeneration(Act(c, ns[0]), ns[1..], h);
    }
  }

  /** The latest grant once the client has handled a datagram: the last new one in it, if there is one. */
  function LatestAfter(c: Client, ns: seq<Notification>, h: nat): nat {
    var e := LastNew(ns, h, c.lastKnown);
    if e.Some? then e.value.generation else Latest(c.grants, h)
  }

  /** The datagram has no grant for the handle, or its last one has the generation of the latest grant. */
  predicate Harmless(c: Client, ns: seq<Notification>, h: nat) {
    var e := LastGrant(ns, h);
    e.None? || e.value.generation == LatestAfter(c, ns, h)
  }

  lemma {:induction false} NewIsGrant(ns: seq<Notification>, h: nat, known: nat)
    ensures LastNew(ns, h, known).Some? ==> LastGrant(ns, h).Some?
    decreases |ns|
  {
    if ns != [] {
      NewIsGrant(ns[1..], h, Farther(known, ns[0]));
    }
  }

  /**
   * The client receives a datagram.  Afterwards `get_sequencer` hands out the
   * latest grant exactly when the datagram is harmless, and it did before if
   * the datagram has no grant for the handle.
   */
  lemma GenerationAgreesExactly(c: Client, ns: seq<Notification>, h: nat)
    requires AllValid(ns) && h in c.handles && !ActAll(c, ns).dead
    ensures Agrees(ActAll(c, ns), h) <==> Harmless(c, ns, h) && (LastGrant(ns, h).None? ==> Agrees(c, h))
  {
    DatagramGeneration(c, ns, h);
    NewIsGrant(ns, h, c.lastKnown);
  }

  // ----- The lock status -----

  lemma ActStatus(c: Client, n: Notification, h: nat)
    requires Accepts(c, n) && Valid(n) && h in c.handles
    ensures var a, d := c.handles[h], Act(c, n);
            h in d.handles && d.handles[h].lockMode == a.lockMode &&
            if Grants(n, h) && n.event.id > c.lastKnown
            then d.handles[h].status.Granted? &&
                 d.handles[h].sequencer == Some(Sequencer(n.event.mode, n.event.generation))
            else d.handles[h].status == a.status && d.handles[h].sequencer == a.sequencer
  {
  }

  /**
   * A datagram that the client survives gives the lock to exactly the handles
   * with a new grant in it: they hold it, with the mode and the generation of
   * the last new grant in their sequencer.  All others keep status and
   * sequencer, and nobody's lock mode changes.
   */
  lemma {:induction false} DatagramGrants(c: Client, ns: seq<Notification>, h: nat)
    requires AllValid(ns) && h in c.handles && !ActAll(c, ns).dead
    ensures h in ActAll(c, ns).handles
    ensures var a, d, e := c.handles[h], ActAll(c, ns).handles[h], LastNew(ns, h, c.lastKnown);
            d.lockMode == a.lockMode &&
            if e.Some? then d.status.Granted? && d.sequencer == Some(Sequencer(e.value.mode, e.value.generation))
            else d.status == a.status && d.sequencer == a.sequencer
    decreases |ns|
  {
    hide Act, Accepts, Valid;
    if ns != [] {
      ActStatus(c, ns[0], h);
      ActGeneration(c, ns[0], h);
      DatagramGrants(Act(c, ns[0]), ns[1..], h);
    }
  }

  /** In particular, a caller that waits is answered by a new grant, whatever else the datagram carries. */
  lemma WaiterIsAnswered(c: Client, ns: seq<Notification>, i: nat)
    requires AllValid(ns) && !c.dead && Survives(c, ns) && i < |ns| && IsNew(ns, i, c.lastKnown)
    requires ns[i].event.LockGranted? && ns[i].handle in c.handles && c.handles[ns[i].handle].status.Pending?
    ensures ns[i].handle in ActAll(c, ns).handles && ActAll(c, ns).handles[ns[i].handle].status.Granted?
  {
    hide ActAll, Valid;
    var h := ns[i].handle;
    assert AcceptedAt(c, ns, i);
    SurvivesExactly(c, ns);
    DatagramGrants(c, ns, h);
    var place := LastNewIs(ns, h, c.lastKnown);
  }

  // ----- Datagrams in order -----

  lemma {:induction false} LastGrantIsLater(ns: seq<Notification>, h: nat, id: nat)
    requires LastGrant(ns, h).Some? && forall i :: 0 <= i < |ns| ==> ns[i].event.id > id
    ensures LastGrant(ns, h).value.id > id
  {
    if LastGrant(ns[1..], h).Some? {
      LastGrantIsLater(ns[1..], h, id);
    }
  }

  lemma {:induction false} NewInOrder(ns: seq<Notification>, h: nat, known: nat)
    requires Increasing(ns)
    ensures var e := LastGrant(ns, h); LastNew(ns, h, known) == if e.Some? && e.value.id > known then e else None
    decreases |ns|
  {
    if ns != [] {
      NewInOrder(ns[1..], h, Farther(known, ns[0]));
      if LastGrant(ns[1..], h).Some? {
        LastGrantIsLater(ns[1..], h, ns[0].event.id);
      }
    }
  }

  /** When its ids increase, a datagram is harmless exactly when its last grant is not known, or is the latest. */
  lemma HarmlessInOrder(c: Client, ns: seq<Notification>, h: nat)
    requires Increasing(ns)
    ensures Harmless(c, ns, h) <==>
            var e := LastGrant(ns, h);
            e.None? || e.value.id > c.lastKnown || e.value.generation == Latest(c.grants, h)
  {
    NewInOrder(ns, h, c.lastKnown);
  }

  /** Handle 1 holds the lock with generation 7; no event is known. */
  const HOLDER := Client(1, 0, map[1 := HandleState(Granted, 2, 7, Some(Sequencer(2, 7)))], [], [Grant(1, 7)],
                         false, false)

  /**
   * In any other order that is not enough: a grant with a smaller id than the
   * event before it is not known to the client when the datagram arrives, but
   * is when the loop reaches it.
   */
  lemma OutOfOrderGrant()
    ensures var ns := [Notification(1, LockReleased(5)), Notification(1, LockGranted(3, 2, 8))];
            && AllValid(ns) && Agrees(HOLDER, 1) && !ActAll(HOLDER, ns).dead && !Agrees(ActAll(HOLDER, ns), 1)
            && LastGrant(ns, 1).Some? && LastGrant(ns, 1).value.id > HOLDER.lastKnown
  {
    var a, b := Notification(1, LockReleased(5)), Notification(1, LockGranted(3, 2, 8));
    var ns := [a, b];
    assert ns[1..] == [b] && [b][1..] == [];
    var d := Act(HOLDER, a);
    var e := Act(d, b);
    assert ActAll(e, []) == e;
    assert ActAll(d, [b]) == e;
    assert LastGrant([b], 1) == Some(b.event);
    assert [Grant(1, 7)][..0] == [];
  }
}
