/**
 * Making events while others are under way: when that is safe, over whole runs
 * of the master, and what it means for the delivery to a client.
 */
module EventRuns {
  import opened Serialization
  import opened Keepalive
  import opened NotificationProtocol
  import opened EventDelivery

  // ----- Making events -----

  /** The recipients are of different sessions, and nothing is under way for any of these, unless it has expired. */
  ghost predicate Apart(s: Dispatcher, rs: seq<HandleRef>) {
    && (forall i, j :: 0 <= i < j < |rs| && rs[i].session !in s.expired ==> rs[i].session != rs[j].session)
    && (forall i, d, j :: 0 <= i < |rs| && rs[i].session !in s.expired ==> !Pends(s, d, j, rs[i].session))
  }

  lemma CreateInv(s: Dispatcher, e: Event, rs: seq<HandleRef>)
    requires EventDelivery.Inv(s)
    ensures EventDelivery.Inv(Create(s, e, rs))
  {
  }

  lemma DeliverInv(s: Dispatcher, d: nat)
    requires EventDelivery.Inv(s) && CanDeliver(s, d)
    ensures EventDelivery.Inv(Deliver(s, d))
  {
    var t := Deliver(s, d);
    forall k, i | 0 <= i < |Queue(t.queues, k)| ensures Queue(t.queues, k)[i].event.id < t.nextId {
      if i < |Queue(s.queues, k)| {
        assert Queue(t.queues, k)[i] == Queue(s.queues, k)[i];
      }
    }
  }

  /** Where a notification stands once an event has been made. */
  lemma PendsAfter(s: Dispatcher, e: Event, rs: seq<HandleRef>, d: int, i: int, k: nat)
    ensures Pends(Create(s, e, rs), d, i, k) <==>
            Pends(s, d, i, k) || (d == |s.inFlight| && 0 <= i < |rs| && rs[i].session == k)
  {
  }

  lemma CreateKeepsOrder(s: Dispatcher, e: Event, rs: seq<HandleRef>, k: nat)
    requires EventDelivery.Inv(s) && OrderlyFor(s, k) && Apart(s, rs)
    ensures OrderlyFor(Create(s, e, rs), k)
  {
    hide Increasing;
    if k in s.expired {
      return;
    }
    var t := Create(s, e, rs);
    var q := Queue(s.queues, k);
    assert q != [] ==> q[|q| - 1].event.id < s.nextId;
    forall d, i | Pends(t, d, i, k) ensures t.inFlight[d].event.id > LastId(q) {
      PendsAfter(s, e, rs, d, i, k);
    }
    forall d, i, c, j | Pends(t, d, i, k) && Pends(t, c, j, k) ensures d == c && i == j {
      PendsAfter(s, e, rs, d, i, k);
      PendsAfter(s, e, rs, c, j, k);
    }
  }

  lemma TogetherIsDisorder(s: Dispatcher, e: Event, rs: seq<HandleRef>) returns (k: nat)
    requires !Apart(s, rs)
    ensures !OrderlyFor(Create(s, e, rs), k)
  {
    hide Increasing;
    var n := |s.inFlight|;
    if i: nat, j: nat :| i < j < |rs| && rs[i].session == rs[j].session && rs[i].session !in s.expired {
      k := rs[i].session;
      PendsAfter(s, e, rs, n, i, k);
      PendsAfter(s, e, rs, n, j, k);
    } else {
      var i: nat, d, j :| i < |rs| && rs[i].session !in s.expired && Pends(s, d, j, rs[i].session);
      k := rs[i].session;
      PendsAfter(s, e, rs, d, j, k);
      PendsAfter(s, e, rs, n, i, k);
    }
  }

  /** Making an event keeps an orderly state orderly exactly when it is apart from what is under way. */
  lemma CreateOrderlyExactly(s: Dispatcher, e: Event, rs: seq<HandleRef>)
    requires EventDelivery.Inv(s) && Orderly(s)
    ensures Orderly(Create(s, e, rs)) <==> Apart(s, rs)
  {
    hide OrderlyFor, Apart, EventDelivery.Inv, Create;
    if Apart(s, rs) {
      forall k ensures OrderlyFor(Create(s, e, rs), k) {
        CreateKeepsOrder(s, e, rs, k);
      }
    } else {
      var k := TogetherIsDisorder(s, e, rs);
    }
  }

  // ----- Whole runs -----

  datatype Step = Creating(e: Event, rs: seq<HandleRef>) | Delivering(d: nat) | Expiring(session: nat)

  predicate Enabled(s: Dispatcher, step: Step) {
    step.Delivering? ==> CanDeliver(s, step.d)
  }

  function Apply(s: Dispatcher, step: Step): Dispatcher
    requires Enabled(s, step)
  {
    match step
    case Creating(e, rs) => Create(s, e, rs)
    case Delivering(d) => Deliver(s, d)
    case Expiring(session) => s.(expired := s.expired + {session})
  }

  /** In every state of the run, every schedule of what is under way keeps all queues increasing. */
  ghost predicate SafeThroughout(s: Dispatcher, steps: seq<Step>)
    decreases |steps|
  {
    AlwaysIncrease(s) &&
    (steps == [] || (Enabled(s, steps[0]) ==> SafeThroughout(Apply(s, steps[0]), steps[1..])))
  }

  /** Every event of the run is made apart from what is under way. */
  ghost predicate CreatedApart(s: Dispatcher, steps: seq<Step>)
    decreases |steps|
  {
    steps == [] ||
    ((steps[0].Creating? ==> Apart(s, steps[0].rs)) &&
     (Enabled(s, steps[0]) ==> CreatedApart(Apply(s, steps[0]), steps[1..])))
  }

  lemma ExpireOrderly(s: Dispatcher, session: nat)
    requires EventDelivery.Inv(s) && Orderly(s)
    ensures var t := s.(expired := s.expired + {session}); EventDelivery.Inv(t) && Orderly(t)
  {
    var t := s.(expired := s.expired + {session});
    forall k ensures OrderlyFor(t, k) {
      assert OrderlyFor(s, k);
      assert forall d, i :: Pends(t, d, i, k) ==> Pends(s, d, i, k);
    }
  }

  lemma StepOrderly(s: Dispatcher, step: Step)
    requires EventDelivery.Inv(s) && Orderly(s) && Enabled(s, step)
    ensures EventDelivery.Inv(Apply(s, step))
    ensures Orderly(Apply(s, step)) <==> (step.Creating? ==> Apart(s, step.rs))
  {
    hide OrderlyFor, Apart, EventDelivery.Inv, Create, Deliver;
    match step {
      case Creating(e, rs) =>
        CreateInv(s, e, rs);
        CreateOrderlyExactly(s, e, rs);
      case Delivering(d) =>
        DeliverInv(s, d);
        forall k ensures OrderlyFor(Deliver(s, d), k) {
          DeliverOrderly(s, d, k);
        }
      case Expiring(session) =>
        ExpireOrderly(s, session);
    }
  }

  /**
   * Throughout a run, no schedule can break the order of a queue, exactly when
   * each event is made apart: for one interested handle per session, and with
   * nothing else under way for these sessions.
   */
  lemma {:induction false} SafeThroughoutExactly(s: Dispatcher, steps: seq<Step>)
    requires EventDelivery.Inv(s) && Orderly(s)
    ensures SafeThroughout(s, steps) <==> CreatedApart(s, steps)
    decreases |steps|
  {
    hide EventDelivery.Inv, Orderly, AlwaysIncrease, Apart, Apply, CanDeliver;
    AlwaysIncreaseExactly(s);
    if steps != [] && Enabled(s, steps[0]) {
      StepOrderly(s, steps[0]);
      AlwaysIncreaseExactly(Apply(s, steps[0]));
      if Orderly(Apply(s, steps[0])) {
        SafeThroughoutExactly(Apply(s, steps[0]), steps[1..]);
      }
    }
  }

  lemma InitialOrderly()
    ensures EventDelivery.Inv(Initial) && Orderly(Initial)
  {
    forall k ensures OrderlyFor(Initial, k) {
    }
  }

  ghost predicate Reaches(s: Dispatcher, steps: seq<Step>, t: Dispatcher)
    decreases |steps|
  {
    if steps == [] then s == t
    else Enabled(s, steps[0]) && Reaches(Apply(s, steps[0]), steps[1..], t)
  }

  lemma {:induction false} ApartIncreases(s: Dispatcher, steps: seq<Step>, t: Dispatcher)
    requires EventDelivery.Inv(s) && Orderly(s) && Reaches(s, steps, t) && CreatedApart(s, steps)
    ensures Orderly(t)
    decreases |steps|
  {
    hide EventDelivery.Inv, Orderly, Apart, Apply, Enabled;
    if steps != [] {
      StepOrderly(s, steps[0]);
      ApartIncreases(Apply(s, steps[0]), steps[1..], t);
    }
  }

  /**
   * Master and client together: when events are made apart, a session whose
   * queue is filled by them delivers in order over any network.
   */
  lemma DeliveredWhenApart(steps: seq<Step>, u: Dispatcher, k: nat,
                           id: nat, now: int, run: seq<NotificationProtocol.Step>, t: NotificationProtocol.System)
    requires Reaches(Initial, steps, u) && CreatedApart(Initial, steps)
    requires 0 < id < P64 && NotificationProtocol.Reaches(Start(id, now), run, t)
    requires t.queued == Queue(u.queues, k)
    ensures t.purged <= t.client.acted <= t.queued
  {
    hide EventDelivery.Inv;
    InitialOrderly();
    ApartIncreases(Initial, steps, u);
    assert OrderlyFor(u, k);
    DeliveredInOrder(id, now, run, t);
  }

  const TWO_HANDLES := [HandleRef(2, 1, {LOCK_RELEASED}), HandleRef(3, 1, {LOCK_RELEASED})]

  /** One event for two handles of the same session gives its queue the same id twice. */
  lemma OneEventTwice()
    ensures var s := Create(Initial, LockReleased(0), TWO_HANDLES);
            Possible(s, [0, 0]) && !Increasing(Queue(DeliverAll(s, [0, 0]).queues, 1))
  {
    var s := Create(Initial, LockReleased(0), TWO_HANDLES);
    var t := Deliver(s, 0);
    var u := Deliver(t, 0);
    assert [0, 0][1..] == [0] && [0][1..] == [];
    assert Possible(u, []) && DeliverAll(u, []) == u;
    assert Possible(t, [0]) && DeliverAll(t, [0]) == u;
    NotIncreasing(Queue(u.queues, 1), 0, 1);
  }
}
