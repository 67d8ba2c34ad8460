/**
 * How events reach the queues of sessions.  An event takes its id when it is
 * made; its notifications are then queued one by one, for every handle of the
 * node that is interested, while other threads make and queue other events.
 * The queues have increasing ids, whatever the schedule, exactly when no two
 * notifications for a session that has not expired are under way together.
 */
module EventDelivery {
  import opened Keepalive
  import opened NotificationProtocol

  /** A handle of a node: its number, the session that opened it and the bits of its event mask. */
  datatype HandleRef = HandleRef(handle: nat, session: nat, eventMask: set<nat>)

  /** An event and the handles that are still to be notified of it. */
  datatype Delivery = Delivery(event: Event, pending: seq<HandleRef>)

  /** `queues` is everything that was ever put into the queue of a session, `expired` the sessions that have ended. */
  datatype Dispatcher = Dispatcher(nextId: nat, inFlight: seq<Delivery>, queues: map<nat, seq<Notification>>,
                                   expired: set<nat>)

  const Initial := Dispatcher(1, [], map[], {})

  function Queue(queues: map<nat, seq<Notification>>, k: nat): seq<Notification> {
    if k in queues then queues[k] else []
  }

  /** A session that has expired drops the notification. */
  function Enqueued(queues: map<nat, seq<Notification>>, expired: set<nat>, r: HandleRef, e: Event)
    : map<nat, seq<Notification>>
  {
    if r.session in expired then queues
    else queues[r.session := Queue(queues, r.session) + [Notification(r.handle, e)]]
  }

  /** The handles whose mask has the bit of the event. */
  function Interested(handles: seq<HandleRef>, mask: nat): seq<HandleRef> {
    if handles == [] then []
    else if mask in handles[0].eventMask then [handles[0]] + Interested(handles[1..], mask)
    else Interested(handles[1..], mask)
  }

  function EnqueuedAll(queues: map<nat, seq<Notification>>, expired: set<nat>, rs: seq<HandleRef>, e: Event)
    : map<nat, seq<Notification>>
    decreases |rs|
  {
    if rs == [] then queues else EnqueuedAll(Enqueued(queues, expired, rs[0], e), expired, rs[1..], e)
  }

  /** They are those of the node that ask for the event. */
  lemma {:induction false} InterestedAre(handles: seq<HandleRef>, mask: nat, r: HandleRef)
    ensures r in Interested(handles, mask) <==> r in handles && mask in r.eventMask
  {
    if handles != [] {
      InterestedAre(handles[1..], mask, r);
    }
  }

  /** The notifications of an event for the handles of one session, in order. */
  function ForSession(rs: seq<HandleRef>, e: Event, k: nat): seq<Notification> {
    if rs == [] then []
    else if rs[0].session == k then [Notification(rs[0].handle, e)] + ForSession(rs[1..], e, k)
    else ForSession(rs[1..], e, k)
  }

  /** Delivering an event adds to the queue of each session that has not expired its notifications, and nothing else. */
  lemma {:induction false} EnqueuedAllIs(queues: map<nat, seq<Notification>>, expired: set<nat>,
                                         rs: seq<HandleRef>, e: Event, k: nat)
    ensures Queue(EnqueuedAll(queues, expired, rs, e), k) ==
            Queue(queues, k) + (if k in expired then [] else ForSession(rs, e, k))
    decreases |rs|
  {
    if rs == [] {
      assert Queue(queues, k) + [] == Queue(queues, k);
    } else {
      EnqueuedAllIs(Enqueued(queues, expired, rs[0], e), expired, rs[1..], e, k);
      if rs[0].session == k && k !in expired {
        Sequences.Assoc(Queue(queues, k), [Notification(rs[0].handle, e)], ForSession(rs[1..], e, k));
      }
    }
  }

  /** The loop over the handles of a node, when no other thread comes in between. */
  class EventQueues {
    var queues: map<nat, seq<Notification>>
    var expired: set<nat>

    method DeliverEventNotifications(handles: seq<HandleRef>, e: Event) returns (notifications: nat)
      modifies this`queues
      ensures queues == EnqueuedAll(old(queues), expired, Interested(handles, Mask(e)), e)
      ensures notifications == |Interested(handles, Mask(e))|
    {
      notifications := 0;
      for i := 0 to |handles|
        invariant EnqueuedAll(queues, expired, Interested(handles[i..], Mask(e)), e) ==
                  EnqueuedAll(old(queues), expired, Interested(handles, Mask(e)), e)
        invariant notifications + |Interested(handles[i..], Mask(e))| == |Interested(handles, Mask(e))|
      {
        assert handles[i..][1..] == handles[i + 1..];
        if Mask(e) in handles[i].eventMask {
          assert Interested(handles[i..], Mask(e))[1..] == Interested(handles[i + 1..], Mask(e));
          queues := Enqueued(queues, expired, handles[i], e);
          notifications := notifications + 1;
        }
      }
    }
  }

  // ----- Steps -----

  /** An event is made, with the next id. */
  function Create(s: Dispatcher, e: Event, rs: seq<HandleRef>): Dispatcher {
    s.(nextId := s.nextId + 1, inFlight := s.inFlight + [Delivery(e.(id := s.nextId), rs)])
  }

  predicate CanDeliver(s: Dispatcher, d: nat) {
    d < |s.inFlight| && s.inFlight[d].pending != []
  }

  /** The next notification of an event is queued. */
  function Deliver(s: Dispatcher, d: nat): Dispatcher
    requires CanDeliver(s, d)
  {
    var x := s.inFlight[d];
    s.(inFlight := s.inFlight[d := x.(pending := x.pending[1..])],
       queues := Enqueued(s.queues, s.expired, x.pending[0], x.event))
  }

  /** A schedule: which event has its next notification queued, step by step. */
  predicate Possible(s: Dispatcher, ds: seq<nat>)
    decreases |ds|
  {
    ds == [] || (CanDeliver(s, ds[0]) && Possible(Deliver(s, ds[0]), ds[1..]))
  }

  function DeliverAll(s: Dispatcher, ds: seq<nat>): Dispatcher
    requires Possible(s, ds)
    decreases |ds|
  {
    if ds == [] then s else DeliverAll(Deliver(s, ds[0]), ds[1..])
  }

  lemma {:induction false} DeliverConcat(s: Dispatcher, a: seq<nat>, b: seq<nat>)
    requires Possible(s, a) && Possible(DeliverAll(s, a), b)
    ensures Possible(s, a + b) && DeliverAll(s, a + b) == DeliverAll(DeliverAll(s, a), b)
    decreases |a|
  {
    hide Deliver, CanDeliver;
    if a == [] {
      assert a + b == b;
    } else {
      assert (a + b)[0] == a[0] && (a + b)[1..] == a[1..] + b;
      DeliverConcat(Deliver(s, a[0]), a[1..], b);
    }
  }

  // ----- What every schedule does -----

  /** Ids are handed out once each, and queues and deliveries have only such ids. */
  ghost predicate Inv(s: Dispatcher) {
    && (forall d :: 0 <= d < |s.inFlight| ==> 0 < s.inFlight[d].event.id < s.nextId)
    && (forall d, c :: 0 <= d < c < |s.inFlight| ==> s.inFlight[d].event.id != s.inFlight[c].event.id)
    && (forall k, i :: 0 <= i < |Queue(s.queues, k)| ==> Queue(s.queues, k)[i].event.id < s.nextId)
    && s.nextId > 0
  }

  ghost predicate AllIncrease(s: Dispatcher) {
    forall k :: Increasing(Queue(s.queues, k))
  }

  /** Every schedule of what is under way keeps all queues increasing. */
  ghost predicate AlwaysIncrease(s: Dispatcher) {
    forall ds :: Possible(s, ds) ==> AllIncrease(DeliverAll(s, ds))
  }

  /** The notification at place `i` of a delivery is for the session. */
  predicate Pends(s: Dispatcher, d: int, i: int, k: nat) {
    0 <= d < |s.inFlight| && 0 <= i < |s.inFlight[d].pending| && s.inFlight[d].pending[i].session == k
  }

  /**
   * The queue of the session is increasing; unless the session has expired, no
   * two notifications for it are under way, and one that is has a larger id.
   */
  ghost predicate OrderlyFor(s: Dispatcher, k: nat) {
    && Increasing(Queue(s.queues, k))
    && (k !in s.expired ==>
          && (forall d, i :: Pends(s, d, i, k) ==> s.inFlight[d].event.id > LastId(Queue(s.queues, k)))
          && (forall d, i, c, j :: Pends(s, d, i, k) && Pends(s, c, j, k) ==> d == c && i == j))
  }

  ghost predicate Orderly(s: Dispatcher) {
    forall k :: OrderlyFor(s, k)
  }

  // ----- Orderly states stay orderly -----

  lemma PendsBefore(s: Dispatcher, d: nat, c: int, i: int, k: nat)
    requires CanDeliver(s, d) && Pends(Deliver(s, d), c, i, k)
    ensures Pends(s, c, if c == d then i + 1 else i, k)
  {
  }

  lemma IncreasingSnoc(q: seq<Notification>, n: Notification)
    requires Increasing(q) && n.event.id > LastId(q)
    ensures Increasing(q + [n])
  {
  }

  lemma DeliverOrderly(s: Dispatcher, d: nat, k: nat)
    requires CanDeliver(s, d) && OrderlyFor(s, k)
    ensures OrderlyFor(Deliver(s, d), k)
  {
    if k in s.expired {
      return;
    }
    var t, r := Deliver(s, d), s.inFlight[d].pending[0];
    if r.session == k {
      assert Pends(s, d, 0, k);
      IncreasingSnoc(Queue(s.queues, k), Notification(r.handle, s.inFlight[d].event));
    }
    forall c, i | Pends(t, c, i, k) ensures r.session != k && t.inFlight[c].event.id > LastId(Queue(t.queues, k)) {
      PendsBefore(s, d, c, i, k);
    }
    forall c, i, b, j | Pends(t, c, i, k) && Pends(t, b, j, k) ensures c == b && i == j {
      PendsBefore(s, d, c, i, k);
      PendsBefore(s, d, b, j, k);
    }
  }

  lemma {:induction false} OrderlyIncreases(s: Dispatcher, ds: seq<nat>)
    requires Orderly(s) && Possible(s, ds)
    ensures AllIncrease(DeliverAll(s, ds))
    decreases |ds|
  {
    hide Deliver, CanDeliver, Increasing;
    if ds != [] {
      forall k ensures OrderlyFor(Deliver(s, ds[0]), k) {
        DeliverOrderly(s, ds[0], k);
      }
      OrderlyIncreases(Deliver(s, ds[0]), ds[1..]);
    } else {
      forall k ensures Increasing(Queue(s.queues, k)) {
        assert OrderlyFor(s, k);
      }
    }
  }

  // ----- Other states have a schedule that breaks the order -----

  /** The queue of a session has grown by the event, and by nothing that stood there before. */
  ghost predicate Grown(s: Dispatcher, t: Dispatcher, k: nat, id: nat) {
    && Queue(s.queues, k) <= Queue(t.queues, k)
    && exists p :: |Queue(s.queues, k)| <= p < |Queue(t.queues, k)| && Queue(t.queues, k)[p].event.id == id
  }

  lemma DeliverGrows(s: Dispatcher, d: nat, k: nat)
    requires CanDeliver(s, d)
    ensures Queue(s.queues, k) <= Queue(Deliver(s, d).queues, k)
    ensures s.inFlight[d].pending[0].session == k && k !in s.expired ==>
            Grown(s, Deliver(s, d), k, s.inFlight[d].event.id)
  {
    var t := Deliver(s, d);
    if s.inFlight[d].pending[0].session == k && k !in s.expired {
      assert Queue(t.queues, k)[|Queue(s.queues, k)|].event.id == s.inFlight[d].event.id;
    }
  }

  lemma GrownLater(s: Dispatcher, t: Dispatcher, u: Dispatcher, k: nat, id: nat)
    requires Queue(s.queues, k) <= Queue(t.queues, k) && Grown(t, u, k, id)
    ensures Grown(s, u, k, id)
  {
  }

  /** The notifications of an event are queued up to place `i`. */
  lemma {:induction false} DeliverUpTo(s: Dispatcher, d: nat, i: nat) returns (ds: seq<nat>)
    requires d < |s.inFlight| && i < |s.inFlight[d].pending| && s.inFlight[d].pending[i].session !in s.expired
    ensures Possible(s, ds) && DeliverAll(s, ds).expired == s.expired
    ensures DeliverAll(s, ds).inFlight == s.inFlight[d := Delivery(s.inFlight[d].event, s.inFlight[d].pending[i + 1..])]
    ensures Grown(s, DeliverAll(s, ds), s.inFlight[d].pending[i].session, s.inFlight[d].event.id)
    decreases i
  {
    hide Grown, Queue, Enqueued;
    var k, id := s.inFlight[d].pending[i].session, s.inFlight[d].event.id;
    var t := Deliver(s, d);
    DeliverGrows(s, d, k);
    if i == 0 {
      ds := [d];
      assert [d][1..] == [] && Possible(t, []) && DeliverAll(t, []) == t;
    } else {
      var more := DeliverUpTo(t, d, i - 1);
      ds := [d] + more;
      assert ds[1..] == more;
      assert s.inFlight[d].pending[1..][i..] == s.inFlight[d].pending[i + 1..];
      GrownLater(s, t, DeliverAll(t, more), k, id);
    }
  }

  lemma NotIncreasing(q: seq<Notification>, a: nat, b: nat)
    requires a < b < |q| && q[a].event.id >= q[b].event.id
    ensures !Increasing(q)
  {
  }

  /** A notification whose id the queue has reached breaks the order when it is queued. */
  lemma LateBreaks(s: Dispatcher, d: nat, i: nat, k: nat) returns (ds: seq<nat>)
    requires Inv(s) && Pends(s, d, i, k) && k !in s.expired && s.inFlight[d].event.id <= LastId(Queue(s.queues, k))
    ensures Possible(s, ds) && !AllIncrease(DeliverAll(s, ds))
  {
    ds := DeliverUpTo(s, d, i);
    var q, r, id := Queue(s.queues, k), Queue(DeliverAll(s, ds).queues, k), s.inFlight[d].event.id;
    var p :| |q| <= p < |r| && r[p].event.id == id;
    assert r[|q| - 1] == q[|q| - 1];
    NotIncreasing(r, |q| - 1, p);
  }

  /** Two notifications for a session can be queued so that the second has no larger id. */
  lemma PairBreaks(s: Dispatcher, d: nat, i: nat, c: nat, j: nat, k: nat) returns (ds: seq<nat>)
    requires Inv(s) && Pends(s, d, i, k) && Pends(s, c, j, k) && k !in s.expired
    requires if d == c then i < j else s.inFlight[d].event.id > s.inFlight[c].event.id
    ensures Possible(s, ds) && !AllIncrease(DeliverAll(s, ds))
  {
    var first := DeliverUpTo(s, d, i);
    var t := DeliverAll(s, first);
    var place := if d == c then j - i - 1 else j;
    assert t.inFlight[c].pending[place].session == k && t.inFlight[c].event == s.inFlight[c].event;
    var second := DeliverUpTo(t, c, place);
    DeliverConcat(s, first, second);
    ds := first + second;
    var q, r := Queue(t.queues, k), Queue(DeliverAll(s, ds).queues, k);
    var a :| |Queue(s.queues, k)| <= a < |q| && q[a].event.id == s.inFlight[d].event.id;
    var b :| |q| <= b < |r| && r[b].event.id == s.inFlight[c].event.id;
    assert r[a] == q[a];
    NotIncreasing(r, a, b);
  }

  lemma DisorderBreaks(s: Dispatcher, k: nat) returns (ds: seq<nat>)
    requires Inv(s) && !OrderlyFor(s, k)
    ensures Possible(s, ds) && !AllIncrease(DeliverAll(s, ds))
  {
    if !Increasing(Queue(s.queues, k)) {
      ds := [];
    } else if d: nat, i: nat :| Pends(s, d, i, k) && s.inFlight[d].event.id <= LastId(Queue(s.queues, k)) {
      ds := LateBreaks(s, d, i, k);
    } else {
      var d: nat, i: nat, c: nat, j: nat :| Pends(s, d, i, k) && Pends(s, c, j, k) && !(d == c && i == j);
      if (d == c && i < j) || (d != c && s.inFlight[d].event.id > s.inFlight[c].event.id) {
        ds := PairBreaks(s, d, i, c, j, k);
      } else {
        ds := PairBreaks(s, c, j, d, i, k);
      }
    }
  }

  /** Every schedule of what is under way keeps all queues increasing exactly when the state is orderly. */
  lemma AlwaysIncreaseExactly(s: Dispatcher)
    requires Inv(s)
    ensures AlwaysIncrease(s) <==> Orderly(s)
  {
    hide Possible, DeliverAll, OrderlyFor, AllIncrease, Inv;
    if Orderly(s) {
      forall ds | Possible(s, ds) ensures AllIncrease(DeliverAll(s, ds)) {
        OrderlyIncreases(s, ds);
      }
    } else {
      var k :| !OrderlyFor(s, k);
      var ds := DisorderBreaks(s, k);
    }
  }
}
