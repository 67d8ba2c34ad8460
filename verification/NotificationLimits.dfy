/**
 * Where the notification protocol does not deliver: exactly the queues whose
 * event ids do not increase, for example one event sent to two handles of the
 * same session.
 */
module NotificationLimits {
  import opened Sequences
  import opened Serialization
  import opened Keepalive
  import opened ClientHandler
  import opened Sessions
  import opened NotificationProtocol

  lemma {:induction false} ReachesConcat(s: System, a: seq<Step>, t: System, b: seq<Step>, u: System)
    requires Reaches(s, a, t) && Reaches(t, b, u)
    ensures Reaches(s, a + b, u)
    decreases |a|
  {
    hide Apply, Enabled;
    if a == [] {
      assert a + b == b;
    } else {
      ReachesConcat(Apply(s, a[0]), a[1..], t, b, u);
      assert (a + b)[0] == a[0] && (a + b)[1..] == a[1..] + b;
    }
  }

  lemma ReachesSnoc(s: System, a: seq<Step>, t: System, step: Step)
    requires Reaches(s, a, t) && Enabled(t, step)
    ensures Reaches(s, a + [step], Apply(t, step))
  {
    var u := Apply(t, step);
    assert Reaches(u, [], u);
    assert [step][1..] == [];
    assert Reaches(t, [step], u);
    ReachesConcat(s, a, t, [step], u);
  }

  /** A handle is opened and asks for the lock. */
  lemma RegisterOne(s: System, h: nat) returns (steps: seq<Step>, t: System)
    requires h !in s.client.handles
    ensures Reaches(s, steps, t) && t == s.(client := s.client.(handles := t.client.handles))
    ensures t.client.handles == s.client.handles[h := HandleState(Unlocked, 0, 0, Some(Sequencer(0, 0)))]
  {
    var open, call := ClientCalls(OpenReply(h, 0, 0)), ClientCalls(LockCall(h, 0, 0));
    var u := Apply(s, open);
    t := Apply(u, call);
    steps := [open, call];
    assert Reaches(t, [], t);
    assert [call][1..] == [] && Reaches(u, [call], t);
    assert steps[1..] == [call];
  }

  ghost predicate AllAwaited(c: Client) {
    forall h :: h in c.handles ==> c.handles[h].sequencer.Some?
  }

  lemma {:induction false} RegisterAll(s: System, ns: seq<Notification>) returns (steps: seq<Step>, t: System)
    requires s.client.handles == map[]
    ensures Reaches(s, steps, t) && t == s.(client := s.client.(handles := t.client.handles))
    ensures AllAwaited(t.client) && forall n :: n in ns ==> n.handle in t.client.handles
  {
    hide Apply, Enabled;
    steps, t := [], s;
    if ns != [] {
      var k := |ns| - 1;
      steps, t := RegisterAll(s, ns[..k]);
      if ns[k].handle !in t.client.handles {
        var more, u := RegisterOne(t, ns[k].handle);
        ReachesConcat(s, steps, t, more, u);
        steps, t := steps + more, u;
      }
      assert ns == ns[..k] + [ns[k]];
    }
  }

  lemma {:induction false} EnqueueAll(s: System, ns: seq<Notification>) returns (steps: seq<Step>, t: System)
    requires AllValid(ns) && !s.session.expired
    ensures Reaches(s, steps, t)
    ensures t == s.(session := s.session.(queue := s.session.queue + ns), queued := s.queued + ns)
  {
    steps, t := [], s;
    if ns == [] {
      assert s.session.queue + ns == s.session.queue && s.queued + ns == s.queued;
    } else {
      var k := |ns| - 1;
      steps, t := EnqueueAll(s, ns[..k]);
      ReachesSnoc(s, steps, t, Enqueue(ns[k]));
      steps, t := steps + [Enqueue(ns[k])], Apply(t, Enqueue(ns[k]));
      assert ns == ns[..k] + [ns[k]];
      assert s.queued + ns == s.queued + ns[..k] + [ns[k]];
      assert s.session.queue + ns == s.session.queue + ns[..k] + [ns[k]];
    }
  }

  /** The first place where the ids do not increase. */
  lemma {:induction false} FirstDrop(ns: seq<Notification>) returns (i: nat)
    requires !Increasing(ns)
    ensures 0 < i < |ns| && Increasing(ns[..i]) && ns[i].event.id <= ns[i - 1].event.id
  {
    var k := |ns| - 1;
    if Increasing(ns[..k]) {
      i := k;
      if k == 0 || ns[k - 1].event.id < ns[k].event.id {
        forall a, b | 0 <= a < b < |ns| ensures ns[a].event.id < ns[b].event.id {
          assert forall j :: 0 <= j < k ==> ns[..k][j] == ns[j];
          if b == k && a < k - 1 {
            assert ns[..k][a].event.id < ns[..k][k - 1].event.id;
          }
        }
        assert false;
      }
    } else {
      i := FirstDrop(ns[..k]);
      assert ns[..k][..i] == ns[..i];
    }
  }

  /** The handles are registered, the notifications are queued, and the queue is sent. */
  lemma SentRun(q: seq<Notification>) returns (steps: seq<Step>, t: System)
    requires AllValid(q) && Encodable(q)
    ensures Reaches(Start(1, 0), steps, t) && ServerKeepalive(1, q).Ok?
    ensures t == Start(1, 0).(session := Start(1, 0).session.(queue := q), queued := q,
                              toClient := {ServerKeepalive(1, q).value},
                              client := Start(1, 0).client.(handles := t.client.handles))
    ensures forall n :: n in q ==> Ready(t.client, n)
  {
    var s := Start(1, 0);
    var a, t1 := RegisterAll(s, q);
    var b, t2 := EnqueueAll(t1, q);
    ReachesConcat(s, a, t1, b, t2);
    assert [] + q == q;
    ListRoundTrip(q, []);
    ReachesSnoc(s, a + b, t2, ServerSend);
    steps, t := a + b + [ServerSend], Apply(t2, ServerSend);
  }

  /** The client receives them and acts on all of them; the acknowledgement is under way. */
  lemma ActedRun(q: seq<Notification>) returns (steps: seq<Step>, t: System)
    requires AllValid(q) && Encodable(q) && Increasing(q) && q != []
    ensures Reaches(Start(1, 0), steps, t)
    ensures t.session == Start(1, 0).session.(queue := q) && t.queued == q && t.purged == []
    ensures t.client.acted == q && ClientKeepalive(1, LastId(q), false) in t.toServer
  {
    var a, t1 := SentRun(q);
    var datagram := ServerKeepalive(1, q).value;
    ShortList(q);
    HandleEncoded(t1.client, q);
    assert q[0..|q|] == q && q[..|q|] == q;
    var k := ActSegment(t1.client, q, 0, |q|, 0);
    ReachesSnoc(Start(1, 0), a, t1, ClientReceive(datagram));
    steps, t := a + [ClientReceive(datagram)], Apply(t1, ClientReceive(datagram));
  }

  /** The next notification has a smaller id and is queued before the acknowledgement arrives. */
  lemma LosingPurge(ns: seq<Notification>, i: nat, t1: System) returns (steps: seq<Step>, t: System)
    requires AllValid(ns) && Encodable(ns) && 0 < i < |ns| && ns[i].event.id <= ns[i - 1].event.id
    requires Increasing(ns[..i])
    requires t1.session == Start(1, 0).session.(queue := ns[..i]) && t1.queued == ns[..i] && t1.purged == []
    requires ClientKeepalive(1, ns[i - 1].event.id, false) in t1.toServer
    ensures Reaches(t1, steps, t)
    ensures t.queued == ns[..i + 1] && t.purged == ns[..i + 1] && t.client == t1.client && !t.session.expired
  {
    hide ServerHandle, Acknowledged, DecodeClientKeepalive, ClientKeepalive;
    var ack, id := ClientKeepalive(1, ns[i - 1].event.id, false), ns[i - 1].event.id;
    var t2 := Apply(t1, Enqueue(ns[i]));
    assert ns[..i + 1] == ns[..i] + [ns[i]];
    LengthSplit(ns, i + 1);
    assert Valid(ns[i - 1]);
    ClientKeepaliveDecodes(1, id, false);
    ReceiveWithLease(t2.session, ack, 0, id);
    CoversAll(ns[..i], ns[i], id);
    t := Apply(t2, ServerReceive(ack, 0));
    steps := [Enqueue(ns[i]), ServerReceive(ack, 0)];
    assert Reaches(t, [], t);
    assert Reaches(t2, [ServerReceive(ack, 0)], t);
    assert steps[1..] == [ServerReceive(ack, 0)];
  }

  lemma CoversAll(q: seq<Notification>, n: Notification, id: nat)
    requires Increasing(q) && q != [] && q[|q| - 1].event.id == id && n.event.id <= id
    ensures Filter(q + [n], UpTo(id)) == q + [n]
  {
    hide Filter;
    PurgeCuts(q + [n], |q| + 1, id);
    assert (q + [n])[..|q| + 1] == q + [n];
  }

  lemma LosingRun(ns: seq<Notification>, i: nat) returns (steps: seq<Step>, t: System)
    requires AllValid(ns) && Encodable(ns) && 0 < i < |ns| && ns[i].event.id <= ns[i - 1].event.id
    requires Increasing(ns[..i])
    ensures Reaches(Start(1, 0), steps, t)
    ensures t.queued == ns[..i + 1] && t.purged == ns[..i + 1] && t.client.acted == ns[..i] && !t.session.expired
  {
    hide Apply, Enabled, Reaches;
    LengthSplit(ns, i);
    var a, t1 := ActedRun(ns[..i]);
    var b, t2 := LosingPurge(ns, i, t1);
    ReachesConcat(Start(1, 0), a, t1, b, t2);
    steps, t := a + b, t2;
  }

  /**
   * Whenever the ids do not increase, there is a run that queues exactly these
   * notifications and purges one that the client has never acted on.
   */
  lemma OtherQueuesLose(ns: seq<Notification>) returns (steps: seq<Step>, t: System)
    requires AllValid(ns) && Encodable(ns) && !Increasing(ns)
    ensures Reaches(Start(1, 0), steps, t) && t.queued == ns
    ensures |t.purged| == |t.client.acted| + 1
  {
    hide Apply, Enabled, Reaches, Increasing, Encodable;
    var i := FirstDrop(ns);
    var a, t1 := LosingRun(ns, i);
    var b, t2 := EnqueueAll(t1, ns[i + 1..]);
    ReachesConcat(Start(1, 0), a, t1, b, t2);
    steps, t := a + b, t2;
    assert ns[..i + 1] + ns[i + 1..] == ns;
  }

  /** A run that queues exactly the notifications `ns`. */
  ghost predicate Queues(id: nat, now: int, steps: seq<Step>, t: System, ns: seq<Notification>) {
    0 < id < P64 && Reaches(Start(id, now), steps, t) && t.queued == ns
  }

  ghost predicate PurgesOnlyActed(t: System) {
    multiset(t.purged) <= multiset(t.client.acted)
  }

  lemma LongerIsNotWithin<T>(a: seq<T>, b: seq<T>)
    requires |a| > |b|
    ensures !(multiset(a) <= multiset(b))
  {
    var x, y := multiset(a), multiset(b);
    assert x <= y ==> y == x + (y - x);
    assert |x| == |a| && |y| == |b|;
  }

  /**
   * The server purges only what the client has acted on, in every run that
   * queues `ns`, exactly when the event ids of `ns` increase.
   */
  lemma SafeExactlyWhenIncreasing(ns: seq<Notification>)
    requires AllValid(ns) && Encodable(ns)
    ensures Increasing(ns) <==> forall id, now, steps, t :: Queues(id, now, steps, t, ns) ==> PurgesOnlyActed(t)
  {
    if Increasing(ns) {
      forall id, now, steps, t | Queues(id, now, steps, t, ns) ensures PurgesOnlyActed(t) {
        DeliveredInOrder(id, now, steps, t);
        assert t.client.acted == t.purged + t.client.acted[|t.purged|..];
      }
    } else {
      var steps, t := OtherQueuesLose(ns);
      assert Queues(1, 0, steps, t, ns);
      LongerIsNotWithin(t.purged, t.client.acted);
    }
  }
}
