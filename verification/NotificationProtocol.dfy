/**
 * The notification protocol between the Hyperspace master and one client
 * session.  Datagrams are bytes.  The network may lose, duplicate and reorder
 * them: everything that was ever sent stays in a set, and any member of the set
 * may be received at any time, any number of times or never.
 */
module NotificationProtocol {
  import opened Sequences
  import opened Serialization
  import opened Keepalive
  import opened ClientHandler
  import opened Sessions

  /** Histories: `queued` is all that was put into the queue, `purged` all that acknowledgements took out. */
  datatype System = System(
    session: Session,
    client: Client,
    toClient: set<bytes>,
    toServer: set<bytes>,
    queued: seq<Notification>,
    purged: seq<Notification>)

  datatype Step =
    | Enqueue(n: Notification)             // add_notification
    | ServerSend                           // deliver_event_notifications
    | ServerReceive(b: bytes, now: int)
    | ServerExpire                         // remove_expired_sessions
    | ClientReceive(b: bytes)
    | ClientTimer                          // the keepalive timer
    | ClientClose                          // destroy_session
    | ClientCalls(call: Call)              // open, lock, try_lock and release

  const LEASE: int := 60

  function Start(id: nat, now: int): System {
    System(Session(id, [], false, now + LEASE, true),
           Client(id, 0, map[], [], [], false, false), {}, {}, [], [])
  }

  /** The message for a queue can be built: its length has 32 bits. */
  predicate Encodable(ns: seq<Notification>) { MessageLength(ns) < P32 }

  predicate Enabled(s: System, step: Step) {
    match step
    case Enqueue(n) => Valid(n)
    case ServerSend => Encodable(s.session.queue)
    case ServerReceive(b, _) => b in s.toServer && Encodable(s.session.queue)
    case ServerExpire => true
    case ClientReceive(b) => b in s.toClient
    case ClientTimer => !s.client.dead && !s.client.expired
    case ClientClose => !s.client.dead
    case ClientCalls(call) => Possible(s.client, call)
  }

  function Send(net: set<bytes>, b: Option<bytes>): set<bytes> {
    if b.Some? then net + {b.value} else net
  }

  /** The notifications that a datagram takes out of the queue. */
  ghost function Acknowledged(s: Session, b: bytes, now: int): seq<Notification> {
    match DecodeClientKeepalive(b)
    case Err(_) => []
    case Ok((id, lastKnown, shutdown)) =>
      if id == s.id && !shutdown && s.registered && now <= s.expireTime then Filter(s.queue, UpTo(lastKnown)) else []
  }

  ghost function Apply(s: System, step: Step): System
    requires Enabled(s, step)
  {
    match step
    case Enqueue(n) =>
      s.(session := Added(s.session, n), queued := if s.session.expired then s.queued else s.queued + [n])
    case ServerSend =>
      if s.session.registered && ServerKeepalive(s.session.id, s.session.queue).Ok?
      then s.(toClient := s.toClient + {ServerKeepalive(s.session.id, s.session.queue).value})
      else s
    case ServerReceive(b, now) =>
      var (session, reply) := ServerHandle(s.session, b, now, LEASE);
      s.(session := session, toClient := Send(s.toClient, reply),
         purged := s.purged + Acknowledged(s.session, b, now))
    case ServerExpire =>
      s.(session := Expired(s.session).(registered := false))
    case ClientReceive(b) =>
      var (client, reply) := HandleMessage(s.client, b);
      s.(client := client, toServer := Send(s.toServer, reply))
    case ClientTimer =>
      s.(toServer := s.toServer + {ClientKeepalive(s.client.sessionId, s.client.lastKnown, false)})
    case ClientClose =>
      s.(toServer := s.toServer + {ClientKeepalive(s.client.sessionId, s.client.lastKnown, true)},
         client := s.client.(dead := true))
    case ClientCalls(call) =>
      s.(client := Called(s.client, call))
  }

  ghost predicate Reaches(s: System, steps: seq<Step>, t: System)
    decreases |steps|
  {
    if steps == [] then s == t
    else Enabled(s, steps[0]) && Reaches(Apply(s, steps[0]), steps[1..], t)
  }

  // ----- Queues with increasing event ids -----

  ghost predicate Increasing(ns: seq<Notification>) {
    forall i, j :: 0 <= i < j < |ns| ==> ns[i].event.id < ns[j].event.id
  }

  function LastId(ns: seq<Notification>): nat {
    if ns == [] then 0 else ns[|ns| - 1].event.id
  }

  /** When the ids up to position `m` are covered and the others are not, the purge cuts there. */
  lemma {:induction false} PurgeCuts(ns: seq<Notification>, m: nat, ack: nat)
    requires m <= |ns|
    requires forall i :: 0 <= i < m ==> ns[i].event.id <= ack
    requires forall i :: m <= i < |ns| ==> ns[i].event.id > ack
    ensures Filter(ns, UpTo(ack)) == ns[..m] && Filter(ns, Beyond(ack)) == ns[m..]
  {
    if ns != [] {
      var m' := if m > 0 then m - 1 else 0;
      PurgeCuts(ns[1..], m', ack);
      if m > 0 {
        assert ns[..m] == [ns[0]] + ns[1..][..m'] && ns[m..] == ns[1..][m'..];
      } else {
        assert ns[m..] == [ns[0]] + ns[1..][m'..];
      }
    }
  }

  lemma {:induction false} FilterAll<T>(s: seq<T>, p: T -> bool)
    requires forall i :: 0 <= i < |s| ==> p(s[i])
    ensures Filter(s, p) == s
  {
    if s != [] {
      FilterAll(s[1..], p);
      assert s == [s[0]] + s[1..];
    }
  }

  /** The client has acted on a prefix of `q` and knows how far. */
  ghost predicate ActedOn(c: Client, q: seq<Notification>, k: nat) {
    k <= |q| && c.acted == q[..k] && c.lastKnown == LastId(q[..k])
  }

  lemma ActOne(c: Client, q: seq<Notification>, i: nat, k: nat)
    requires Increasing(q) && AllValid(q) && ActedOn(c, q, k) && i < |q| && i <= k && Accepts(c, q[i])
    ensures ActedOn(Act(c, q[i]), q, if i < k then k else k + 1)
    ensures Continues(c, Act(c, q[i])) && forall n :: Ready(c, n) ==> Ready(Act(c, q[i]), n)
  {
    assert Valid(q[i]);
    if i < k {
      assert q[i].event.id <= q[k - 1].event.id;
    } else {
      assert q[..k] + [q[k]] == q[..k + 1];
      if k > 0 {
        assert q[k - 1].event.id < q[k].event.id;
      }
    }
  }

  /**
   * The client on a run `q[i..j]` of the queue, having acted on `q[..k]`: it
   * acts on exactly the part it does not know, or on some of it if a notification
   * is not accepted.
   */
  lemma {:induction false} ActSegment(c: Client, q: seq<Notification>, i: nat, j: nat, k: nat) returns (k': nat)
    requires Increasing(q) && AllValid(q) && i <= j <= |q| && ActedOn(c, q, k) && i <= k
    ensures k <= k' && ActedOn(ActAll(c, q[i..j]), q, k')
    ensures ActAll(c, q[i..j]).sessionId == c.sessionId && ActAll(c, q[i..j]).expired == c.expired
    ensures !ActAll(c, q[i..j]).dead ==> k' == if j > k then j else k
    ensures (forall n :: n in q[i..j] ==> Ready(c, n)) ==> ActAll(c, q[i..j]).dead == c.dead
    decreases j - i
  {
    hide Act, Valid, Increasing;
    k' := k;
    if i < j {
      assert q[i..j][0] == q[i] && q[i..j][1..] == q[i + 1..j];
      if Accepts(c, q[i]) {
        ActOne(c, q, i, k);
        k' := ActSegment(Act(c, q[i]), q, i + 1, j, if i < k then k else k + 1);
      } else {
        assert q[i] in q[i..j];
      }
    } else {
      assert q[i..j] == [];
    }
  }

  /** When its ids increase, the client survives a datagram exactly when it accepts each notification as it is. */
  lemma SurvivesInOrder(c: Client, ns: seq<Notification>)
    requires Increasing(ns) && AllValid(ns) && !c.dead
    ensures !ActAll(c, ns).dead <==> forall n :: n in ns ==> Accepts(c, n)
  {
    SurvivesExactly(c, ns);
    assert (forall n :: n in ns ==> Accepts(c, n)) <==> forall i :: 0 <= i < |ns| ==> Accepts(c, ns[i]);
    forall i | 0 <= i < |ns| ensures AcceptedAt(c, ns, i) <==> Accepts(c, ns[i]) {
      assert IsNew(ns, i, c.lastKnown) <==> ns[i].event.id > c.lastKnown;
    }
  }

  // ----- The invariant -----

  /** The datagram carries a run of the queue that starts no later than where the client is. */
  ghost predicate CarriesRun(s: System, b: bytes, i: nat, j: nat) {
    && i <= j <= |s.queued| && i <= |s.client.acted|
    && Encodable(s.queued[i..j]) && ServerKeepalive(s.session.id, s.queued[i..j]) == Ok(b)
  }

  ghost predicate ToClientOk(s: System, b: bytes) {
    b == ServerError(s.session.id, EXPIRED_SESSION) || exists i, j :: CarriesRun(s, b, i, j)
  }

  /** The datagram acknowledges a prefix of what the client has acted on. */
  ghost predicate Acknowledges(s: System, b: bytes, k: nat, shutdown: bool) {
    k <= |s.client.acted| && b == ClientKeepalive(s.session.id, LastId(s.client.acted[..k]), shutdown)
  }

  ghost predicate ToServerOk(s: System, b: bytes) {
    exists k, shutdown :: Acknowledges(s, b, k, shutdown)
  }

  ghost predicate Inv(s: System) {
    && AllValid(s.queued) && 0 < s.session.id < P64 && s.client.sessionId == s.session.id
    && (s.session.expired ==> s.session.queue == [])
    && (Increasing(s.queued) ==> Delivered(s))
  }

  ghost predicate Delivered(s: System) {
    && |s.purged| <= |s.client.acted| <= |s.queued|
    && s.purged == s.queued[..|s.purged|]
    && s.client.acted == s.queued[..|s.client.acted|]
    && s.client.lastKnown == LastId(s.client.acted)
    && (!s.session.expired ==> s.session.queue == s.queued[|s.purged|..])
    && (forall b :: b in s.toClient ==> ToClientOk(s, b))
    && (forall b :: b in s.toServer ==> ToServerOk(s, b))
  }

  /** A datagram that is in order stays in order while the queue and the client go on. */
  lemma NetMonotone(s: System, t: System)
    requires s.queued <= t.queued && s.client.acted <= t.client.acted && s.session.id == t.session.id
    ensures forall b :: ToClientOk(s, b) ==> ToClientOk(t, b)
    ensures forall b :: ToServerOk(s, b) ==> ToServerOk(t, b)
  {
    forall b | ToClientOk(s, b) ensures ToClientOk(t, b) {
      if b != ServerError(s.session.id, EXPIRED_SESSION) {
        var i: nat, j: nat :| CarriesRun(s, b, i, j);
        assert t.queued[i..j] == s.queued[i..j];
        assert CarriesRun(t, b, i, j);
      }
    }
    forall b | ToServerOk(s, b) ensures ToServerOk(t, b) {
      var k: nat, shutdown: bool :| Acknowledges(s, b, k, shutdown);
      assert t.client.acted[..k] == s.client.acted[..k];
      assert Acknowledges(t, b, k, shutdown);
    }
  }

  lemma LengthSplit(ns: seq<Notification>, i: nat)
    requires i <= |ns|
    ensures ListLength(ns) == ListLength(ns[..i]) + ListLength(ns[i..])
  {
    if i > 0 {
      LengthSplit(ns[1..], i - 1);
      assert ns[..i][1..] == ns[1..][..i - 1] && ns[i..] == ns[1..][i - 1..];
    } else {
      assert ns[i..] == ns;
    }
  }

  lemma {:induction false} ShortList(ns: seq<Notification>)
    ensures |ns| <= ListLength(ns)
  {
    if ns != [] { ShortList(ns[1..]); }
  }

  lemma ClientKeepaliveDecodes(id: nat, lastKnown: nat, shutdown: bool)
    requires id < P64 && lastKnown < P64
    ensures DecodeClientKeepalive(ClientKeepalive(id, lastKnown, shutdown)) == Ok((id, lastKnown, shutdown))
  {
    Widths();
    var a, b, c := EncodeInt(COMMAND_KEEPALIVE, 2), EncodeInt(id, 8), EncodeInt(lastKnown, 8);
    var d: bytes := [if shutdown then 1 else 0];
    assert ClientKeepalive(id, lastKnown, shutdown) == a + (b + (c + d));
    DecodeEncodeInt(COMMAND_KEEPALIVE, 2, b + (c + d));
    DecodeEncodeInt(id, 8, c + d);
    DecodeEncodeInt(lastKnown, 8, d);
    assert d[..1] == d && d[1..] == [] && IntValue(d) == d[0];
  }

  lemma EnqueueOk(s: System, n: Notification)
    requires Inv(s) && Valid(n)
    ensures Inv(Apply(s, Enqueue(n)))
  {
    var t := Apply(s, Enqueue(n));
    if Increasing(t.queued) {
      assert forall i :: 0 <= i < |s.queued| ==> s.queued[i] == t.queued[i];
      assert Increasing(s.queued);
      NetMonotone(s, t);
    }
  }

  /** The current queue is a run of what was queued, from where the purge has come to. */
  lemma QueueIsRun(s: System, b: bytes)
    requires |s.purged| <= |s.client.acted| <= |s.queued| && Encodable(s.session.queue)
    requires s.session.queue == if s.session.expired then [] else s.queued[|s.purged|..]
    requires ServerKeepalive(s.session.id, s.session.queue) == Ok(b)
    ensures ToClientOk(s, b)
  {
    if s.session.expired {
      var k := |s.client.acted|;
      assert s.queued[k..k] == [];
      assert CarriesRun(s, b, k, k);
    } else {
      assert s.queued[|s.purged|..|s.queued|] == s.session.queue;
      assert CarriesRun(s, b, |s.purged|, |s.queued|);
    }
  }

  lemma ServerSendOk(s: System)
    requires Inv(s) && Enabled(s, ServerSend)
    ensures Inv(Apply(s, ServerSend))
  {
    var t := Apply(s, ServerSend);
    if Increasing(t.queued) {
      NetMonotone(s, t);
      forall b | b in t.toClient ensures ToClientOk(t, b) {
        if b !in s.toClient { QueueIsRun(s, b); }
      }
    }
  }

  /** An acknowledgement of `all[..k]`, when the queue is `all[p..]`: it cuts where it is farther. */
  lemma AcknowledgementCuts(all: seq<Notification>, p: nat, k: nat)
    requires Increasing(all) && AllValid(all) && p <= |all| && k <= |all|
    ensures
      var ack, m := LastId(all[..k]), if k < p then p else k;
      && all[..p] + Filter(all[p..], UpTo(ack)) == all[..m]
      && Filter(all[p..], Beyond(ack)) == all[m..]
      && ListLength(all[m..]) <= ListLength(all[p..])
  {
    hide Filter, ListLength;
    var q, ack, m := all[p..], LastId(all[..k]), if k < p then p else k;
    forall i | 0 <= i < |q| ensures q[i].event.id <= ack <==> i < m - p {
      assert q[i] == all[p + i] && Valid(all[p + i]);
    }
    PurgeCuts(q, m - p, ack);
    assert all[..p] + q[..m - p] == all[..m] && q[m - p..] == all[m..];
    LengthSplit(q, m - p);
  }

  lemma ReceiveParts(s: System, b: bytes, now: int, k: nat, shutdown: bool)
    requires Inv(s) && Increasing(s.queued) && Delivered(s) && Acknowledges(s, b, k, shutdown)
    ensures DecodeClientKeepalive(b) == Ok((s.session.id, LastId(s.client.acted[..k]), shutdown))
  {
    var ack := LastId(s.client.acted[..k]);
    if k > 0 {
      assert s.client.acted[..k][k - 1] == s.queued[k - 1] && Valid(s.queued[k - 1]);
    }
    ClientKeepaliveDecodes(s.session.id, ack, shutdown);
  }

  /** A datagram that does not renew the lease purges nothing and is answered, if at all, with an error. */
  lemma ReceiveWithoutLease(s: Session, b: bytes, now: int, ack: nat, shutdown: bool)
    requires DecodeClientKeepalive(b) == Ok((s.id, ack, shutdown)) && (s.expired ==> s.queue == [])
    requires shutdown || !s.registered || s.expireTime < now
    ensures
      var (s', reply) := ServerHandle(s, b, now, LEASE);
      && Acknowledged(s, b, now) == []
      && s'.id == s.id && (s'.expired ==> s'.queue == []) && (!s'.expired ==> !s.expired && s'.queue == s.queue)
      && (reply.Some? ==> reply.value == ServerError(s.id, EXPIRED_SESSION))
  {
  }

  /** A datagram that renews the lease: it purges, and the rest of the queue is sent. */
  lemma ReceiveWithLease(s: Session, b: bytes, now: int, ack: nat)
    requires DecodeClientKeepalive(b) == Ok((s.id, ack, false)) && s.registered && now <= s.expireTime
    ensures
      var (s', reply) := ServerHandle(s, b, now, LEASE);
      && Acknowledged(s, b, now) == Filter(s.queue, UpTo(ack))
      && s'.id == s.id && s'.expired == s.expired && s'.queue == Filter(s.queue, Beyond(ack))
      && (reply.Some? ==> ServerKeepalive(s'.id, s'.queue) == Ok(reply.value))
  {
  }

  lemma PurgedTo(s: System, b: bytes, now: int, k: nat) returns (m: nat)
    requires Inv(s) && Increasing(s.queued) && Delivered(s) && Enabled(s, ServerReceive(b, now))
    requires Acknowledges(s, b, k, false) && s.session.registered && now <= s.session.expireTime
    ensures m <= |s.client.acted|
    ensures
      var t := Apply(s, ServerReceive(b, now));
      && t.purged == s.queued[..m] && Encodable(t.session.queue) && t.session.expired == s.session.expired
      && t.session.queue == if s.session.expired then [] else s.queued[m..]
  {
    ReceiveParts(s, b, now, k, false);
    ReceiveWithLease(s.session, b, now, LastId(s.client.acted[..k]));
    var p := |s.purged|;
    m := if k < p then p else k;
    if s.session.expired {
      m := p;
    } else {
      assert s.client.acted[..k] == s.queued[..k];
      AcknowledgementCuts(s.queued, p, k);
    }
  }

  lemma ServerPurgeOk(s: System, b: bytes, now: int, k: nat)
    requires Inv(s) && Increasing(s.queued) && Delivered(s) && Enabled(s, ServerReceive(b, now))
    requires Acknowledges(s, b, k, false) && s.session.registered && now <= s.session.expireTime
    ensures Delivered(Apply(s, ServerReceive(b, now)))
  {
    var t := Apply(s, ServerReceive(b, now));
    var m := PurgedTo(s, b, now, k);
    ReceiveParts(s, b, now, k, false);
    ReceiveWithLease(s.session, b, now, LastId(s.client.acted[..k]));
    NetMonotone(s, t);
    forall b' | b' in t.toClient ensures ToClientOk(t, b') {
      if b' !in s.toClient { QueueIsRun(t, b'); }
    }
  }

  lemma ServerKeeps(s: Session, b: bytes, now: int)
    requires s.expired ==> s.queue == []
    ensures var t := ServerHandle(s, b, now, LEASE).0; t.id == s.id && (t.expired ==> t.queue == [])
  {
    hide DecodeClientKeepalive, ServerKeepalive;
  }

  lemma ServerReceiveOk(s: System, b: bytes, now: int)
    requires Inv(s) && Enabled(s, ServerReceive(b, now))
    ensures Inv(Apply(s, ServerReceive(b, now)))
  {
    hide ServerHandle, ServerKeepalive, ServerError, ClientKeepalive, DecodeClientKeepalive, ListLength;
    var t := Apply(s, ServerReceive(b, now));
    ServerKeeps(s.session, b, now);
    if Increasing(s.queued) {
      var k: nat, shutdown: bool :| Acknowledges(s, b, k, shutdown);
      if shutdown || !s.session.registered || s.session.expireTime < now {
        ReceiveParts(s, b, now, k, shutdown);
        ReceiveWithoutLease(s.session, b, now, LastId(s.client.acted[..k]), shutdown);
        NetMonotone(s, t);
      } else {
        ServerPurgeOk(s, b, now, k);
      }
    }
  }

  lemma ServerExpireOk(s: System)
    requires Inv(s)
    ensures Inv(Apply(s, ServerExpire))
  {
    if Increasing(s.queued) {
      NetMonotone(s, Apply(s, ServerExpire));
    }
  }

  lemma ClientReceiveOk(s: System, b: bytes)
    requires Inv(s) && Enabled(s, ClientReceive(b))
    ensures Inv(Apply(s, ClientReceive(b)))
  {
    var t := Apply(s, ClientReceive(b));
    if Increasing(s.queued) && !s.client.dead {
      if b == ServerError(s.session.id, EXPIRED_SESSION) {
        ErrorExpires(s.client, EXPIRED_SESSION);
        NetMonotone(s, t);
      } else if s.client.expired {
        ExpiredClientIgnores(s.client, b);
      } else {
        var i: nat, j: nat :| CarriesRun(s, b, i, j);
        ClientActsOk(s, b, i, j);
      }
    } else {
      ClientKeepsId(s.client, b);
    }
  }

  lemma ClientKeepsId(c: Client, b: bytes)
    requires c.sessionId != 0
    ensures HandleMessage(c, b).0.sessionId == c.sessionId
  {
  }

  lemma ExpiredClientIgnores(c: Client, b: bytes)
    requires c.expired
    ensures HandleMessage(c, b) == (c, None)
  {
  }

  /** The client receives the datagram with `q[i..j]`, having acted on `q[..k]`. */
  lemma ClientOnRun(c: Client, q: seq<Notification>, i: nat, j: nat, k: nat) returns (k': nat)
    requires Increasing(q) && AllValid(q) && i <= j <= |q| && ActedOn(c, q, k) && i <= k && Encodable(q[i..j])
    requires 0 < c.sessionId < P64 && !c.dead && !c.expired
    ensures ServerKeepalive(c.sessionId, q[i..j]).Ok? && k <= k'
    ensures
      var (c', reply) := HandleMessage(c, ServerKeepalive(c.sessionId, q[i..j]).value);
      && ActedOn(c', q, k') && c'.sessionId == c.sessionId
      && (reply.Some? ==> reply.value == ClientKeepalive(c.sessionId, LastId(q[..k']), false))
      && c'.dead == ActAll(c, q[i..j]).dead
      && (!c'.dead ==> k' == (if j > k then j else k) && (i < j ==> reply.Some?))
  {
    ShortList(q[i..j]);
    HandleEncoded(c, q[i..j]);
    k' := ActSegment(c, q, i, j, k);
  }

  lemma ClientActsOk(s: System, b: bytes, i: nat, j: nat)
    requires Inv(s) && Increasing(s.queued) && Delivered(s) && CarriesRun(s, b, i, j) && b in s.toClient
    requires !s.client.dead && !s.client.expired
    ensures
      var t := Apply(s, ClientReceive(b));
      Delivered(t) && t.client.sessionId == s.client.sessionId
  {
    hide HandleMessage, ServerKeepalive, ServerError, ClientKeepalive, ListLength, Valid, Increasing;
    var t := Apply(s, ClientReceive(b));
    var k := ClientOnRun(s.client, s.queued, i, j, |s.client.acted|);
    NetMonotone(s, t);
    forall b' | b' in t.toServer ensures ToServerOk(t, b') {
      if b' !in s.toServer {
        assert t.client.acted[..k] == s.queued[..k];
        assert Acknowledges(t, b', k, false);
      }
    }
  }

  lemma ClientSendOk(s: System, step: Step)
    requires Inv(s) && (step.ClientTimer? || step.ClientClose?) && Enabled(s, step)
    ensures Inv(Apply(s, step))
  {
    var t := Apply(s, step);
    if Increasing(s.queued) {
      NetMonotone(s, t);
      var k := |s.client.acted|;
      forall b | b in t.toServer ensures ToServerOk(t, b) {
        if b !in s.toServer {
          assert t.client.acted[..k] == t.client.acted;
          assert Acknowledges(t, b, k, step.ClientClose?);
        }
      }
    }
  }

  lemma CallsOk(s: System, call: Call)
    requires Inv(s) && Enabled(s, ClientCalls(call))
    ensures Inv(Apply(s, ClientCalls(call)))
  {
    if Increasing(s.queued) {
      NetMonotone(s, Apply(s, ClientCalls(call)));
    }
  }

  lemma StepOk(s: System, step: Step)
    requires Inv(s) && Enabled(s, step)
    ensures Inv(Apply(s, step))
  {
    match step
    case Enqueue(n) => EnqueueOk(s, n);
    case ServerSend => ServerSendOk(s);
    case ServerReceive(b, now) => ServerReceiveOk(s, b, now);
    case ServerExpire => ServerExpireOk(s);
    case ClientReceive(b) => ClientReceiveOk(s, b);
    case ClientTimer => ClientSendOk(s, step);
    case ClientClose => ClientSendOk(s, step);
    case ClientCalls(call) => CallsOk(s, call);
  }

  lemma {:induction false} RunOk(s: System, steps: seq<Step>, t: System)
    requires Inv(s) && Reaches(s, steps, t)
    ensures Inv(t)
    decreases |steps|
  {
    if steps != [] {
      StepOk(s, steps[0]);
      RunOk(Apply(s, steps[0]), steps[1..], t);
    }
  }

  // ----- What holds in every run -----

  /**
   * Over any network, if the notifications of the session were queued with
   * increasing event ids: the client has acted on a prefix of them, in order,
   * with no gap and no repetition, and the acknowledgements have purged only
   * notifications that the client has acted on.
   */
  lemma DeliveredInOrder(id: nat, now: int, steps: seq<Step>, t: System)
    requires 0 < id < P64 && Reaches(Start(id, now), steps, t) && Increasing(t.queued)
    ensures t.purged <= t.client.acted <= t.queued
    ensures !t.session.expired ==> t.purged + t.session.queue == t.queued
  {
    RunOk(Start(id, now), steps, t);
  }

  /**
   * Each datagram carries all that is not acknowledged.  A client that receives
   * the current one survives it exactly when it accepts each notification in
   * it; it then has acted on all that was queued, and its answer empties the
   * queue.
   */
  lemma CurrentDatagramCatchesUp(id: nat, now: int, steps: seq<Step>, t: System)
    requires 0 < id < P64 && Reaches(Start(id, now), steps, t) && Increasing(t.queued)
    requires !t.session.expired && !t.client.expired && !t.client.dead && Encodable(t.session.queue)
    ensures ServerKeepalive(id, t.session.queue).Ok?
    ensures
      var (c, reply) := HandleMessage(t.client, ServerKeepalive(id, t.session.queue).value);
      && (!c.dead <==> forall n :: n in t.session.queue ==> Accepts(t.client, n))
      && (!c.dead ==> c.acted == t.queued)
      && (!c.dead && t.session.queue != [] ==>
            && reply.Some?
            && DecodeClientKeepalive(reply.value) == Ok((id, LastId(t.queued), false))
            && Purged(t.session, LastId(t.queued)).queue == [])
  {
    RunOk(Start(id, now), steps, t);
    SameSession(Start(id, now), steps, t);
    CatchesUp(t.session, t.client, t.queued, |t.purged|, |t.client.acted|);
  }

  lemma PartInOrder(all: seq<Notification>, p: nat)
    requires Increasing(all) && AllValid(all) && p <= |all|
    ensures Increasing(all[p..]) && AllValid(all[p..])
  {
  }

  lemma LastIdFits(all: seq<Notification>)
    requires AllValid(all)
    ensures LastId(all) < P64
  {
    if all != [] {
      assert Valid(all[|all| - 1]);
    }
  }

  lemma CatchesUp(s: Session, c: Client, all: seq<Notification>, p: nat, k: nat)
    requires Increasing(all) && AllValid(all) && p <= k && ActedOn(c, all, k)
    requires s.queue == all[p..] && Encodable(s.queue) && 0 < s.id < P64 && c.sessionId == s.id
    requires !c.expired && !c.dead
    ensures ServerKeepalive(s.id, s.queue).Ok?
    ensures
      var (c', reply) := HandleMessage(c, ServerKeepalive(s.id, s.queue).value);
      && (!c'.dead <==> forall n :: n in s.queue ==> Accepts(c, n))
      && (!c'.dead ==> c'.acted == all)
      && (!c'.dead && s.queue != [] ==>
            && reply.Some?
            && DecodeClientKeepalive(reply.value) == Ok((s.id, LastId(all), false))
            && Purged(s, LastId(all)).queue == [])
  {
    hide HandleMessage, ServerKeepalive, ActAll, Filter, Accepts, ListLength, Valid;
    hide ClientKeepalive, DecodeClientKeepalive;
    var n := |all|;
    assert all[p..n] == s.queue && all[..n] == all && all[n..] == [];
    var k' := ClientOnRun(c, all, p, n, k);
    PartInOrder(all, p);
    SurvivesInOrder(c, s.queue);
    AcknowledgementCuts(all, p, n);
    if s.queue != [] {
      LastIdFits(all);
      ClientKeepaliveDecodes(s.id, LastId(all), false);
    }
  }

  lemma {:induction false} SameSession(s: System, steps: seq<Step>, t: System)
    requires Reaches(s, steps, t)
    ensures t.session.id == s.session.id
    decreases |steps|
  {
    if steps != [] {
      SameSession(Apply(s, steps[0]), steps[1..], t);
    }
  }
}
