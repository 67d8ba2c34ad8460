/**
 * The server's side of a session: the queue of notifications that the client
 * has not acknowledged, the lease, and the number of outstanding notifications
 * that each event keeps.
 */
module Sessions {
  import opened Sequences
  import opened Serialization
  import opened Keepalive

  const EXPIRED_SESSION: nat := 0x0003_0008

  /** `registered`: the session map of the master still holds the session. */
  datatype Session = Session(
    id: nat,
    queue: seq<Notification>,
    expired: bool,
    expireTime: int,
    registered: bool)

  ghost function UpTo(ack: nat): Notification -> bool { (n: Notification) => n.event.id <= ack }

  ghost function Beyond(ack: nat): Notification -> bool { (n: Notification) => n.event.id > ack }

  ghost function HasId(id: nat): Notification -> bool { (n: Notification) => n.event.id == id }

  // ----- Notification counts -----

  function CountOf(counts: map<nat, int>, id: nat): int {
    if id in counts then counts[id] else 0
  }

  /** The counts after one decrement for each of `ns`. */
  ghost function Decremented(counts: map<nat, int>, ns: seq<Notification>): map<nat, int>
    decreases |ns|
  {
    if ns == [] then counts
    else Decremented(counts[ns[0].event.id := CountOf(counts, ns[0].event.id) - 1], ns[1..])
  }

  lemma {:induction false} DecrementedBy(counts: map<nat, int>, ns: seq<Notification>, id: nat)
    ensures CountOf(Decremented(counts, ns), id) == CountOf(counts, id) - Count(ns, HasId(id))
    decreases |ns|
  {
    if ns != [] {
      DecrementedBy(counts[ns[0].event.id := CountOf(counts, ns[0].event.id) - 1], ns[1..], id);
    }
  }

  lemma {:induction false} DecrementedConcat(counts: map<nat, int>, a: seq<Notification>, b: seq<Notification>)
    ensures Decremented(counts, a + b) == Decremented(Decremented(counts, a), b)
    decreases |a|
  {
    if a == [] {
      assert a + b == b;
    } else {
      assert (a + b)[1..] == a[1..] + b;
      DecrementedConcat(counts[a[0].event.id := CountOf(counts, a[0].event.id) - 1], a[1..], b);
    }
  }

  /** The element at a position of the queue falls on one side of the acknowledgement. */
  lemma PurgeStep(queue: seq<Notification>, i: nat, ack: nat, counts: map<nat, int>)
    requires i < |queue|
    ensures
      var up, up' := Filter(queue[i..], UpTo(ack)), Filter(queue[i + 1..], UpTo(ack));
      var out, out' := Filter(queue[i..], Beyond(ack)), Filter(queue[i + 1..], Beyond(ack));
      if queue[i].event.id <= ack
      then out == out' && Decremented(counts, up) == Decremented(Decremented(counts, [queue[i]]), up')
      else up == up' && queue[..i] + out == queue[..i + 1] + out'
  {
    assert queue[i..][1..] == queue[i + 1..];
    if queue[i].event.id <= ack {
      DecrementedConcat(counts, [queue[i]], Filter(queue[i + 1..], UpTo(ack)));
    }
  }

  /** A queue parts into what an acknowledgement covers and what it does not. */
  lemma {:induction false} PurgeParts(queue: seq<Notification>, ack: nat, p: Notification -> bool)
    ensures Count(queue, p) == Count(Filter(queue, UpTo(ack)), p) + Count(Filter(queue, Beyond(ack)), p)
  {
    if queue != [] {
      PurgeParts(queue[1..], ack, p);
      var a, b := Filter(queue[1..], UpTo(ack)), Filter(queue[1..], Beyond(ack));
      CountConcat([queue[0]], a, p);
      CountConcat([queue[0]], b, p);
    }
  }

  // ----- The operations of a session -----

  ghost function Added(s: Session, n: Notification): Session {
    if s.expired then s else s.(queue := s.queue + [n])
  }

  ghost function Purged(s: Session, ack: nat): Session {
    s.(queue := Filter(s.queue, Beyond(ack)))
  }

  ghost function Expired(s: Session): Session {
    if s.expired then s else s.(expired := true, queue := [])
  }

  /** The lease is renewed unless it ran out before `now`; a lease that ran out ends the session. */
  ghost function Renewed(s: Session, now: int, lease: int): (Session, bool) {
    if s.expireTime < now then (s.(expired := true, queue := []), false)
    else (s.(expireTime := now + lease), true)
  }

  /** The timer finds the lease run out, or not. */
  ghost function Swept(s: Session, now: int): Session {
    if s.expireTime < now then Expired(s).(registered := false) else s
  }

  function DecodeClientKeepalive(msg: bytes): Result<(nat, nat, bool)> {
    var (command, m1) :- DecodeInt(msg, 2);
    if command != COMMAND_KEEPALIVE then Err(BadCommand)
    else
      var (id, m2) :- DecodeInt(m1, 8);
      var (lastKnown, m3) :- DecodeInt(m2, 8);
      var (shutdown, _) :- DecodeInt(m3, 1);
      Ok((id, lastKnown, shutdown != 0))
  }

  /** A client's datagram that is meant for the session `s`: the new state and the datagram sent back. */
  ghost function ServerHandle(s: Session, msg: bytes, now: int, lease: int): (Session, Option<bytes>) {
    match DecodeClientKeepalive(msg)
    case Err(_) => (s, None)
    case Ok((id, lastKnown, shutdown)) =>
      if id != s.id then (s, None)
      else if shutdown then
        (if s.registered then Expired(s).(registered := false, expireTime := now) else s, None)
      else if !s.registered then (s, Some(ServerError(s.id, EXPIRED_SESSION)))
      else
        var (s1, live) := Renewed(s, now, lease);
        if !live then (s1, Some(ServerError(s.id, EXPIRED_SESSION)))
        else
          var s2 := Purged(s1, lastKnown);
          match ServerKeepalive(s2.id, s2.queue)
          case Ok(b) => (s2, Some(b))
          case Err(_) => (s2, None)
  }

  /** The notification counts of all events, by event id. */
  class EventCounts {
    var counts: map<nat, int>

    constructor ()
      ensures counts == map[]
    {
      counts := map[];
    }

    method Increment(id: nat)
      modifies this
      ensures counts == old(counts)[id := CountOf(old(counts), id) + 1]
    {
      counts := counts[id := CountOf(counts, id) + 1];
    }

    /** The count is unsigned: a decrement at zero would wrap around. */
    method Decrement(id: nat) returns (wakeUp: bool)
      requires CountOf(counts, id) > 0
      modifies this
      ensures counts == old(counts)[id := CountOf(old(counts), id) - 1]
      ensures wakeUp <==> CountOf(counts, id) == 0
    {
      counts := counts[id := CountOf(counts, id) - 1];
      wakeUp := CountOf(counts, id) == 0;
    }
  }

  class SessionData {
    const id: nat
    const leaseInterval: int
    const events: EventCounts
    var notifications: seq<Notification>
    var expired: bool
    var expireTime: int
    var registered: bool

    ghost function Value(): Session
      reads this
    {
      Session(id, notifications, expired, expireTime, registered)
    }

    /** Each queued notification is counted by its event. */
    ghost predicate Counted()
      reads this, events
    {
      forall id :: Count(notifications, HasId(id)) <= CountOf(events.counts, id)
    }

    constructor (id: nat, leaseInterval: int, now: int, events: EventCounts)
      ensures Value() == Session(id, [], false, now + leaseInterval, true)
      ensures this.events == events && this.leaseInterval == leaseInterval
      ensures fresh(this)
    {
      this.id, this.leaseInterval, this.events := id, leaseInterval, events;
      notifications, expired, expireTime, registered := [], false, now + leaseInterval, true;
    }

    /** Creates the notification, which counts it, and adds it to the queue. */
    method AddNotification(n: Notification)
      requires Counted()
      modifies this, events
      ensures Counted() && Value() == Added(old(Value()), n)
      ensures forall id :: CountOf(events.counts, id) ==
                           CountOf(old(events.counts), id) + B(id == n.event.id && !old(expired))
    {
      events.Increment(n.event.id);
      if expired {
        assert 0 <= Count(notifications, HasId(n.event.id)) <= CountOf(old(events.counts), n.event.id);
        var _ := events.Decrement(n.event.id);
      } else {
        forall id
          ensures Count(notifications + [n], HasId(id)) == Count(notifications, HasId(id)) + B(id == n.event.id)
        {
          CountSnoc(notifications, n, HasId(id));
        }
        notifications := notifications + [n];
      }
    }

    /** Deletes the notification at a position of the list, which un-counts it. */
    method Erase(iter: nat)
      requires Counted() && iter < |notifications|
      modifies this`notifications, events
      ensures Counted()
      ensures notifications == old(notifications[..iter] + notifications[iter + 1..])
      ensures events.counts == Decremented(old(events.counts), [old(notifications[iter])])
    {
      var n := notifications[iter];
      CountOne(notifications, iter, HasId(n.event.id));
      forall id { CountRemove(notifications, iter, HasId(id)); }
      var _ := events.Decrement(n.event.id);
      notifications := notifications[..iter] + notifications[iter + 1..];
      assert [n][1..] == [];
    }

    /** Erases, while it walks the list, what the client has acknowledged. */
    method PurgeNotifications(ack: nat)
      requires Counted()
      modifies this, events
      ensures Counted() && Value() == Purged(old(Value()), ack)
      ensures events.counts == Decremented(old(events.counts), Filter(old(notifications), UpTo(ack)))
    {
      var iter := 0;
      assert notifications[iter..] == notifications && notifications[..iter] == [];
      while iter < |notifications|
        invariant iter <= |notifications| && Counted() && Value() == old(Value()).(queue := notifications)
        invariant notifications[..iter] + Filter(notifications[iter..], Beyond(ack)) ==
                  Filter(old(notifications), Beyond(ack))
        invariant Decremented(events.counts, Filter(notifications[iter..], UpTo(ack))) ==
                  Decremented(old(events.counts), Filter(old(notifications), UpTo(ack)))
        decreases |notifications| - iter
      {
        PurgeStep(notifications, iter, ack, events.counts);
        if notifications[iter].event.id <= ack {
          ghost var before := notifications;
          Erase(iter);
          assert notifications[..iter] == before[..iter] && notifications[iter..] == before[iter + 1..];
        } else {
          iter := iter + 1;
        }
      }
      assert notifications[iter..] == [] && notifications[..iter] == notifications;
    }

    /** Drops the whole queue from the front. */
    method DropNotifications()
      requires Counted()
      modifies this`notifications, events
      ensures Counted() && notifications == []
      ensures events.counts == Decremented(old(events.counts), old(notifications))
    {
      ghost var queue := notifications;
      ghost var j := 0;
      while notifications != []
        invariant j <= |queue| && notifications == queue[j..]
        invariant events.counts == Decremented(old(events.counts), queue[..j])
        invariant Counted()
        decreases |notifications|
      {
        assert queue[..j + 1] == queue[..j] + [notifications[0]];
        DecrementedConcat(old(events.counts), queue[..j], [notifications[0]]);
        Erase(0);
        j := j + 1;
      }
      assert queue[..j] == queue;
    }

    method Expire()
      requires Counted() && (expired ==> notifications == [])
      modifies this, events
      ensures Counted() && Value() == Expired(old(Value()))
      ensures events.counts == Decremented(old(events.counts), old(notifications))
    {
      if expired {
        return;
      }
      expired := true;
      DropNotifications();
    }

    method RenewLease(now: int) returns (live: bool)
      requires Counted()
      modifies this, events
      ensures Counted() && (Value(), live) == Renewed(old(Value()), now, leaseInterval)
      ensures events.counts ==
              if live then old(events.counts) else Decremented(old(events.counts), old(notifications))
    {
      if expireTime < now {
        expired := true;
        DropNotifications();
        return false;
      }
      expireTime := now + leaseInterval;
      return true;
    }

    /** The timer's look at the session: one whose lease has run out leaves the session map and is expired. */
    method Sweep(now: int) returns (gone: bool)
      requires Counted() && (expired ==> notifications == [])
      modifies this, events
      ensures Counted() && Value() == Swept(old(Value()), now) && gone == (old(expireTime) < now)
    {
      gone := expireTime < now;
      if gone {
        registered := false;
        Expire();
      }
    }

    /** The keepalive branch of the server's handler, for a datagram with this session's id. */
    method HandleKeepalive(msg: bytes, now: int) returns (reply: Option<bytes>)
      requires Counted() && (expired ==> notifications == [])
      modifies this, events
      ensures Counted() && (Value(), reply) == ServerHandle(old(Value()), msg, now, leaseInterval)
    {
      reply := None;
      var request := DecodeClientKeepalive(msg);
      if request.Err? || request.value.0 != id {
        return;
      }
      var lastKnownEvent, shutdown := request.value.1, request.value.2;
      if shutdown {
        if registered {
          registered := false;
          Expire();
          expireTime := now;
        }
        return;
      }
      if !registered {
        return Some(ServerError(id, EXPIRED_SESSION));
      }
      var live := RenewLease(now);
      if !live {
        return Some(ServerError(id, EXPIRED_SESSION));
      }
      PurgeNotifications(lastKnownEvent);
      var datagram := ServerKeepalive(id, notifications);
      if datagram.Ok? {
        reply := Some(datagram.value);
      }
    }
  }

  // ----- All sessions together -----

  /**
   * All sessions, the counts, and histories: every notification created for a
   * session that was not expired, what acknowledgements removed, and what the
   * end of a session removed.
   */
  datatype Master = Master(
    sessions: seq<Session>,
    counts: map<nat, int>,
    sent: seq<Notification>,
    acked: seq<Notification>,
    dropped: seq<Notification>)

  datatype Op =
    | Notify(k: nat, n: Notification)
    | Acknowledge(k: nat, ack: nat)
    | End(k: nat)   // the lease ran out, or the session was destroyed
    | Open(s: Session)

  ghost predicate CanApply(m: Master, op: Op) {
    match op
    case Open(s) => s.queue == [] && !s.expired
    case _ => op.k < |m.sessions|
  }

  ghost function ApplyOp(m: Master, op: Op): Master
    requires CanApply(m, op)
  {
    match op
    case Open(s) => m.(sessions := m.sessions + [s])
    case Notify(k, n) =>
      var s := m.sessions[k];
      var up := m.counts[n.event.id := CountOf(m.counts, n.event.id) + 1];
      m.(sessions := m.sessions[k := Added(s, n)],
         counts := if s.expired then Decremented(up, [n]) else up,
         sent := if s.expired then m.sent else m.sent + [n])
    case Acknowledge(k, ack) =>
      var s := m.sessions[k];
      m.(sessions := m.sessions[k := Purged(s, ack)],
         counts := Decremented(m.counts, Filter(s.queue, UpTo(ack))),
         acked := m.acked + Filter(s.queue, UpTo(ack)))
    case End(k) =>
      var s := m.sessions[k];
      m.(sessions := m.sessions[k := Expired(s)],
         counts := Decremented(m.counts, s.queue),
         dropped := m.dropped + s.queue)
  }

  /** The number of entries for an event in all the queues. */
  ghost function Entries(sessions: seq<Session>, id: nat): nat {
    if sessions == [] then 0 else Count(sessions[0].queue, HasId(id)) + Entries(sessions[1..], id)
  }

  lemma {:induction false} EntriesUpdate(sessions: seq<Session>, k: nat, s: Session, id: nat)
    requires k < |sessions|
    ensures Entries(sessions[k := s], id) ==
            Entries(sessions, id) - Count(sessions[k].queue, HasId(id)) + Count(s.queue, HasId(id))
  {
    if k > 0 {
      EntriesUpdate(sessions[1..], k - 1, s, id);
      assert sessions[k := s][1..] == sessions[1..][k - 1 := s];
    } else {
      assert sessions[k := s][1..] == sessions[1..];
    }
  }

  lemma {:induction false} EntriesSnoc(sessions: seq<Session>, s: Session, id: nat)
    ensures Entries(sessions + [s], id) == Entries(sessions, id) + Count(s.queue, HasId(id))
  {
    if sessions == [] {
      assert sessions + [s] == [s] && [s][1..] == [];
    } else {
      EntriesSnoc(sessions[1..], s, id);
      assert (sessions + [s])[1..] == sessions[1..] + [s];
    }
  }

  ghost predicate CountsExact(m: Master, id: nat) {
    && CountOf(m.counts, id) == Entries(m.sessions, id)
    && Count(m.sent, HasId(id)) ==
         Entries(m.sessions, id) + Count(m.acked, HasId(id)) + Count(m.dropped, HasId(id))
  }

  ghost predicate MasterInv(m: Master) {
    && (forall id :: CountsExact(m, id))
    && (forall k :: 0 <= k < |m.sessions| && m.sessions[k].expired ==> m.sessions[k].queue == [])
  }

  lemma NotifyKeepsCounts(m: Master, k: nat, n: Notification, id: nat)
    requires k < |m.sessions| && CountsExact(m, id)
    ensures CountsExact(ApplyOp(m, Notify(k, n)), id)
  {
    var s := m.sessions[k];
    EntriesUpdate(m.sessions, k, Added(s, n), id);
    if s.expired {
      DecrementedBy(m.counts[n.event.id := CountOf(m.counts, n.event.id) + 1], [n], id);
      assert [n][1..] == [];
    } else {
      CountSnoc(s.queue, n, HasId(id));
      CountSnoc(m.sent, n, HasId(id));
    }
  }

  lemma AcknowledgeKeepsCounts(m: Master, k: nat, ack: nat, id: nat)
    requires k < |m.sessions| && CountsExact(m, id)
    ensures CountsExact(ApplyOp(m, Acknowledge(k, ack)), id)
  {
    var gone := Filter(m.sessions[k].queue, UpTo(ack));
    EntriesUpdate(m.sessions, k, Purged(m.sessions[k], ack), id);
    PurgeParts(m.sessions[k].queue, ack, HasId(id));
    DecrementedBy(m.counts, gone, id);
    CountConcat(m.acked, gone, HasId(id));
  }

  lemma EndKeepsCounts(m: Master, k: nat, id: nat)
    requires k < |m.sessions| && CountsExact(m, id)
    requires m.sessions[k].expired ==> m.sessions[k].queue == []
    ensures CountsExact(ApplyOp(m, End(k)), id)
  {
    EntriesUpdate(m.sessions, k, Expired(m.sessions[k]), id);
    DecrementedBy(m.counts, m.sessions[k].queue, id);
    CountConcat(m.dropped, m.sessions[k].queue, HasId(id));
  }

  lemma OpKeepsInv(m: Master, op: Op)
    requires CanApply(m, op) && MasterInv(m)
    ensures MasterInv(ApplyOp(m, op))
  {
    forall id ensures CountsExact(ApplyOp(m, op), id) {
      assert CountsExact(m, id);
      match op
      case Open(s) => EntriesSnoc(m.sessions, s, id);
      case Notify(k, n) => NotifyKeepsCounts(m, k, n, id);
      case Acknowledge(k, ack) => AcknowledgeKeepsCounts(m, k, ack, id);
      case End(k) => EndKeepsCounts(m, k, id);
    }
  }

  ghost predicate OpsReach(m: Master, ops: seq<Op>, t: Master)
    decreases |ops|
  {
    if ops == [] then m == t
    else CanApply(m, ops[0]) && OpsReach(ApplyOp(m, ops[0]), ops[1..], t)
  }

  lemma {:induction false} OpsKeepInv(m: Master, ops: seq<Op>, t: Master)
    requires MasterInv(m) && OpsReach(m, ops, t)
    ensures MasterInv(t)
    decreases |ops|
  {
    if ops != [] {
      OpKeepsInv(m, ops[0]);
      OpsKeepInv(ApplyOp(m, ops[0]), ops[1..], t);
    }
  }

  /**
   * After every run of the master: the count of an event is the number of
   * entries for it in all queues, never negative; it is zero exactly when each
   * of its notifications was acknowledged or went with its session; and the
   * queue of an expired session is empty.
   */
  lemma CountIsExact(ops: seq<Op>, t: Master, id: nat)
    requires OpsReach(Master([], map[], [], [], []), ops, t)
    ensures CountOf(t.counts, id) == Entries(t.sessions, id) >= 0
    ensures CountOf(t.counts, id) == 0 <==>
            Count(t.sent, HasId(id)) == Count(t.acked, HasId(id)) + Count(t.dropped, HasId(id))
    ensures forall k :: 0 <= k < |t.sessions| && t.sessions[k].expired ==> t.sessions[k].queue == []
  {
    OpsKeepInv(Master([], map[], [], [], []), ops, t);
    assert CountsExact(t, id);
  }
}
