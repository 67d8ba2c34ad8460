/**
 * Lock generations over whole runs: the generation that `get_sequencer` hands
 * out is the latest one throughout a run exactly when every datagram that the
 * client receives is harmless, and a run in which one is not.
 */
module GenerationRuns {
  import opened Sequences
  import opened Serialization
  import opened Keepalive
  import opened ClientHandler
  import opened Sessions
  import opened NotificationProtocol
  import opened NotificationLimits
  import opened ClientGenerations

  // ----- Datagrams and their lists -----

  /** A datagram carries one list only. */
  lemma OneList(id: nat, ns: seq<Notification>, ms: seq<Notification>)
    requires AllValid(ns) && AllValid(ms) && |ns| < P32 && |ms| < P32 && 0 < id < P64
    requires ServerKeepalive(id, ns).Ok? && ServerKeepalive(id, ns) == ServerKeepalive(id, ms)
    ensures ns == ms
  {
    hide KeepaliveHead, EncodeNotifications, DecodeNotifications, Valid;
    ListRoundTrip(ns, []);
    ListRoundTrip(ms, []);
    var a, b := EncodeNotifications(ns).value, EncodeNotifications(ms).value;
    HeadDecodes(id, ERROR_OK, |ns|, a);
    HeadDecodes(id, ERROR_OK, |ms|, b);
  }

  /** An error datagram carries no list. */
  lemma ErrorHasNoList(c: Client, ns: seq<Notification>)
    requires AllValid(ns) && |ns| < P32 && 0 < c.sessionId < P64 && !c.dead && !c.expired
    ensures ServerKeepalive(c.sessionId, ns) != Ok(ServerError(c.sessionId, EXPIRED_SESSION))
  {
    hide HandleMessage, ServerKeepalive, ServerError, ActAll;
    HandleEncoded(c, ns);
    ErrorExpires(c, EXPIRED_SESSION);
    ActAllKeepsExpired(c, ns);
  }

  lemma {:induction false} ActAllKeepsExpired(c: Client, ns: seq<Notification>)
    ensures ActAll(c, ns).expired == c.expired
    decreases |ns|
  {
    if ns != [] && Accepts(c, ns[0]) {
      ActAllKeepsExpired(Act(c, ns[0]), ns[1..]);
    }
  }

  // ----- What every run keeps -----

  /** The datagram carries the list, which the server could encode. */
  ghost predicate Carries(id: nat, b: bytes, ns: seq<Notification>) {
    AllValid(ns) && Encodable(ns) && ServerKeepalive(id, ns) == Ok(b)
  }

  /** Every datagram to the client is the error or carries some list, in any order. */
  ghost predicate FromServer(id: nat, b: bytes) {
    b == ServerError(id, EXPIRED_SESSION) || exists ns :: Carries(id, b, ns)
  }

  ghost predicate Sound(s: System) {
    && 0 < s.session.id < P64 && s.client.sessionId == s.session.id && AllValid(s.session.queue)
    && forall b :: b in s.toClient ==> FromServer(s.session.id, b)
  }

  /** What a purge leaves is valid and no longer. */
  lemma {:induction false} FilterFine(ns: seq<Notification>, p: Notification -> bool)
    ensures ListLength(Filter(ns, p)) <= ListLength(ns)
    ensures AllValid(ns) ==> AllValid(Filter(ns, p))
  {
    if ns != [] {
      FilterFine(ns[1..], p);
      var tail := Filter(ns[1..], p);
      if p(ns[0]) {
        assert Filter(ns, p) == [ns[0]] + tail && ([ns[0]] + tail)[1..] == tail;
      }
    }
  }

  lemma ServerReceiveSound(s: Session, b: bytes, now: int)
    requires AllValid(s.queue) && Encodable(s.queue)
    ensures var (t, reply) := ServerHandle(s, b, now, LEASE);
            t.id == s.id && AllValid(t.queue) && (reply.Some? ==> FromServer(s.id, reply.value))
  {
    hide DecodeClientKeepalive, ServerKeepalive, ServerError, ListLength, Valid;
    var (t, reply) := ServerHandle(s, b, now, LEASE);
    match DecodeClientKeepalive(b)
    case Err(_) =>
    case Ok((id, lastKnown, shutdown)) =>
      FilterFine(s.queue, Beyond(lastKnown));
      if reply.Some? && reply.value != ServerError(s.id, EXPIRED_SESSION) {
        assert Carries(s.id, reply.value, t.queue);
      }
  }

  lemma StepSound(s: System, step: Step)
    requires Sound(s) && Enabled(s, step)
    ensures Sound(Apply(s, step))
  {
    hide HandleMessage, ServerHandle, ServerKeepalive, ServerError, Called, FromServer, Valid;
    match step {
      case ServerSend =>
        if ServerKeepalive(s.session.id, s.session.queue).Ok? {
          SentSound(s.session.id, s.session.queue);
        }
      case ServerReceive(b, now) => ServerReceiveSound(s.session, b, now);
      case ClientReceive(b) => ClientKeepsId(s.client, b);
      case ClientCalls(call) => CallKeepsId(s.client, call);
      case _ =>
    }
  }

  lemma SentSound(id: nat, ns: seq<Notification>)
    requires AllValid(ns) && Encodable(ns) && ServerKeepalive(id, ns).Ok?
    ensures FromServer(id, ServerKeepalive(id, ns).value)
  {
    assert Carries(id, ServerKeepalive(id, ns).value, ns);
  }

  lemma CallKeepsId(c: Client, call: Call)
    requires Possible(c, call)
    ensures Called(c, call).sessionId == c.sessionId && Called(c, call).dead == c.dead
  {
  }

  lemma StartSound(id: nat, now: int)
    requires 0 < id < P64
    ensures Sound(Start(id, now)) && Tracks(Start(id, now).client)
  {
  }

  // ----- Agreement throughout a run -----

  /** The list is harmless for the handle, or the client does not survive it. */
  ghost predicate HarmlessIfAlive(c: Client, ns: seq<Notification>, h: nat) {
    Survives(c, ns) ==> Harmless(c, ns, h)
  }

  /** The datagram is harmless for the handle, if the client looks at it at all. */
  ghost predicate HarmlessReceive(s: System, b: bytes, h: nat) {
    !s.client.dead && !s.client.expired ==>
      forall ns :: Carries(s.session.id, b, ns) ==> HarmlessIfAlive(s.client, ns, h)
  }

  ghost predicate HarmlessThroughout(s: System, steps: seq<Step>, h: nat)
    decreases |steps|
  {
    steps == [] || !Enabled(s, steps[0]) ||
    ((steps[0].ClientReceive? ==> HarmlessReceive(s, steps[0].b, h)) &&
     HarmlessThroughout(Apply(s, steps[0]), steps[1..], h))
  }

  /** A client that is alive hands out the latest grant. */
  ghost predicate AgreesAlive(c: Client, h: nat) {
    c.dead || Agrees(c, h)
  }

  ghost predicate AgreesThroughout(s: System, steps: seq<Step>, h: nat)
    decreases |steps|
  {
    AgreesAlive(s.client, h) &&
    (steps == [] || !Enabled(s, steps[0]) || AgreesThroughout(Apply(s, steps[0]), steps[1..], h))
  }

  lemma CallAgrees(c: Client, call: Call, h: nat)
    requires Tracks(c) && Possible(c, call) && Agrees(c, h)
    ensures Agrees(Called(c, call), h)
  {
    hide Latest;
    assert Fills(c.handles, c.grants, h);
    if call.OpenReply? || call.LockReply? || call.TryLockReply? {
      LatestSnoc(c.grants, Grant(call.handle, call.generation), h);
    }
  }

  lemma {:induction false} UnregisteredHasNoGrant(c: Client, ns: seq<Notification>, h: nat)
    requires h !in c.handles && !ActAll(c, ns).dead
    ensures LastGrant(ns, h).None? && h !in ActAll(c, ns).handles
    decreases |ns|
  {
    hide Act;
    if ns != [] {
      ActKeepsAlive(c, ns[0]);
      UnregisteredHasNoGrant(Act(c, ns[0]), ns[1..], h);
    }
  }

  /** A client that agrees goes on agreeing after a datagram exactly when it dies or the datagram is harmless. */
  lemma ListAgrees(c: Client, ns: seq<Notification>, h: nat)
    requires AllValid(ns) && Agrees(c, h) && !c.dead
    ensures AgreesAlive(ActAll(c, ns), h) <==> HarmlessIfAlive(c, ns, h)
  {
    hide Harmless, Agrees, Survives, ActAll, AllValid;
    SurvivesExactly(c, ns);
    if !ActAll(c, ns).dead {
      SurvivorAgrees(c, ns, h);
    }
  }

  lemma SurvivorAgrees(c: Client, ns: seq<Notification>, h: nat)
    requires AllValid(ns) && Agrees(c, h) && !ActAll(c, ns).dead
    ensures Agrees(ActAll(c, ns), h) <==> Harmless(c, ns, h)
  {
    if h in c.handles {
      GenerationAgreesExactly(c, ns, h);
    } else {
      UnregisteredHasNoGrant(c, ns, h);
    }
  }

  /** A datagram is harmless exactly when the list that it carries is. */
  lemma HarmlessList(s: System, b: bytes, run: seq<Notification>, h: nat)
    requires Carries(s.session.id, b, run)
    requires !s.client.dead && !s.client.expired && 0 < s.session.id < P64
    ensures HarmlessReceive(s, b, h) <==> HarmlessIfAlive(s.client, run, h)
  {
    hide ServerKeepalive, AllValid, HarmlessIfAlive, ListLength;
    ShortList(run);
    forall ns | Carries(s.session.id, b, ns) ensures ns == run {
      ShortList(ns);
      OneList(s.session.id, ns, run);
    }
  }

  lemma ErrorIsHarmless(s: System, h: nat)
    requires s.client.sessionId == s.session.id && 0 < s.session.id < P64
    ensures HarmlessReceive(s, ServerError(s.session.id, EXPIRED_SESSION), h)
  {
    hide ServerKeepalive, ServerError, AllValid, HarmlessIfAlive, ListLength;
    if !s.client.dead && !s.client.expired {
      forall ns ensures !Carries(s.session.id, ServerError(s.session.id, EXPIRED_SESSION), ns) {
        if AllValid(ns) && Encodable(ns) {
          ShortList(ns);
          ErrorHasNoList(s.client, ns);
        }
      }
    }
  }

  lemma ReceiveAgrees(s: System, b: bytes, h: nat)
    requires Sound(s) && Enabled(s, ClientReceive(b)) && !s.client.dead && Agrees(s.client, h)
    ensures AgreesAlive(Apply(s, ClientReceive(b)).client, h) <==> HarmlessReceive(s, b, h)
  {
    hide ActAll, ServerKeepalive, ServerError, AllValid, HarmlessIfAlive, Agrees, HandleMessage, ListLength;
    var c := s.client;
    if c.expired {
      ExpiredClientIgnores(c, b);
    } else if b == ServerError(c.sessionId, EXPIRED_SESSION) {
      ErrorExpires(c, EXPIRED_SESSION);
      SameAgrees(c, c.(expired := true), h);
      ErrorIsHarmless(s, h);
    } else {
      assert FromServer(s.session.id, b);
      var run :| Carries(s.session.id, b, run);
      ShortList(run);
      HandleEncoded(c, run);
      ListAgrees(c, run, h);
      HarmlessList(s, b, run, h);
    }
  }

  lemma SameAgrees(c: Client, d: Client, h: nat)
    requires d.handles == c.handles && d.grants == c.grants
    ensures Agrees(d, h) <==> Agrees(c, h)
  {
  }

  lemma DeadStays(s: System, step: Step)
    requires Enabled(s, step) && s.client.dead
    ensures Apply(s, step).client.dead
  {
    hide ServerHandle, Called;
    if step.ClientCalls? {
      CallKeepsId(s.client, step.call);
    }
  }

  lemma StepAgrees(s: System, step: Step, h: nat)
    requires Sound(s) && Tracks(s.client) && Enabled(s, step) && AgreesAlive(s.client, h)
    ensures AgreesAlive(Apply(s, step).client, h) <==> (step.ClientReceive? ==> HarmlessReceive(s, step.b, h))
  {
    hide HandleMessage, ServerHandle, Sound, Called, Tracks, Agrees, Carries;
    if s.client.dead {
      DeadStays(s, step);
    } else {
      match step {
        case ClientReceive(b) => ReceiveAgrees(s, b, h);
        case ClientCalls(call) => CallAgrees(s.client, call, h);
        case ClientClose =>
        case _ => SameAgrees(s.client, Apply(s, step).client, h);
      }
    }
  }

  /**
   * In every run, over any network and with any queue, the generation of a
   * handle is the latest one as long as the client is alive, exactly when every
   * datagram that the client looks at and survives is harmless.
   */
  lemma {:induction false} AgreesThroughoutExactly(s: System, steps: seq<Step>, h: nat)
    requires Sound(s) && Tracks(s.client) && AgreesAlive(s.client, h)
    ensures AgreesThroughout(s, steps, h) <==> HarmlessThroughout(s, steps, h)
    decreases |steps|
  {
    hide Apply, Enabled, AgreesAlive, Sound, Tracks, HarmlessReceive;
    if steps != [] && Enabled(s, steps[0]) {
      var u := Apply(s, steps[0]);
      StepAgrees(s, steps[0], h);
      StepTracks(s, steps[0]);
      StepSound(s, steps[0]);
      if AgreesAlive(u.client, h) {
        AgreesThroughoutExactly(u, steps[1..], h);
      }
    }
  }

  // ----- A run in which a known grant sets the generation back -----

  const GRANT := Notification(1, LockGranted(1, 2, 5))

  /** The client on the datagram with this one grant. */
  lemma OnGrant(c: Client)
    requires c.sessionId == 1 && !c.dead && !c.expired && 1 in c.handles
    requires c.lastKnown == 0 ==> c.handles[1].sequencer.Some?
    ensures ServerKeepalive(1, [GRANT]).Ok?
    ensures var d := HandleMessage(c, ServerKeepalive(1, [GRANT]).value).0;
            && d == Act(c, GRANT) && !d.dead && !d.expired && d.sessionId == 1
  {
    hide HandleMessage, ServerKeepalive;
    HandleEncoded(c, [GRANT]);
    assert [GRANT][1..] == [] && ActAll(c, [GRANT]) == ActAll(Act(c, GRANT), []);
  }

  /** A step that changes nothing but the client, and adds to what the server may receive. */
  ghost predicate ClientOnly(s: System, t: System, c: Client) {
    t == s.(client := c, toServer := t.toServer)
  }

  lemma ReceiveStep(s: System, b: bytes)
    requires b in s.toClient
    ensures Enabled(s, ClientReceive(b))
    ensures ClientOnly(s, Apply(s, ClientReceive(b)), HandleMessage(s.client, b).0)
  {
  }

  lemma CallStep(s: System, call: Call)
    requires Possible(s.client, call)
    ensures Enabled(s, ClientCalls(call)) && ClientOnly(s, Apply(s, ClientCalls(call)), Called(s.client, call))
  {
  }

  /** After the notification: a release, a new `lock` call and its reply with generation 7. */
  lemma LockedAgain(c: Client) returns (d: Client)
    requires 1 in c.handles && c.handles[1].sequencer == Some(Sequencer(2, 5))
    ensures Possible(c, ReleaseReply(1)) && Possible(Called(c, ReleaseReply(1)), LockCall(1, 2, 0))
    ensures var e := Called(Called(c, ReleaseReply(1)), LockCall(1, 2, 0));
            Possible(e, LockReply(1, 2, 7)) && d == Called(e, LockReply(1, 2, 7))
    ensures d == c.(handles := d.handles, grants := c.grants + [Grant(1, 7)])
    ensures 1 in d.handles && d.handles[1] == HandleState(Granted, 2, 7, Some(Sequencer(2, 7)))
  {
    d := Called(Called(Called(c, ReleaseReply(1)), LockCall(1, 2, 0)), LockReply(1, 2, 7));
  }

  /**
   * Handle 1 is granted the lock with generation 5 by a notification, releases,
   * locks again and is answered with generation 7; then the datagram with the
   * notification arrives once more.  `get_sequencer` hands out generation 5,
   * while the sequencer of the `lock` call says 7.
   */
  lemma StaleGrantSetsBack() returns (steps: seq<Step>, t: System)
    ensures Reaches(Start(1, 0), steps, t) && Increasing(t.queued) && !t.client.dead && 1 in t.client.handles
    ensures t.client.handles[1] == HandleState(Granted, 2, 5, Some(Sequencer(2, 7)))
    ensures Latest(t.client.grants, 1) == 7
  {
    hide Apply, Enabled, Reaches, HandleMessage, ServerKeepalive, Called, Possible, Latest;
    var grant := ServerKeepalive(1, [GRANT]);
    assert [GRANT][1..] == [] && ListLength([GRANT]) == 32 + ListLength([]);
    var a, s := SentRun([GRANT]);
    assert GRANT in [GRANT] && Ready(s.client, GRANT);
    OnGrant(s.client);
    var c := Act(s.client, GRANT);
    var d := LockedAgain(c);
    OnGrant(d);
    var b1, b2, b3 := ClientCalls(ReleaseReply(1)), ClientCalls(LockCall(1, 2, 0)), ClientCalls(LockReply(1, 2, 7));
    var again := ClientReceive(grant.value);
    ReceiveStep(s, grant.value);
    var s1 := Apply(s, again);
    CallStep(s1, b1.call);
    var s2 := Apply(s1, b1);
    CallStep(s2, b2.call);
    var s3 := Apply(s2, b2);
    CallStep(s3, b3.call);
    var s4 := Apply(s3, b3);
    ReceiveStep(s4, grant.value);
    t := Apply(s4, again);
    ReachesSnoc(Start(1, 0), a, s, again);
    ReachesSnoc(Start(1, 0), a + [again], s1, b1);
    ReachesSnoc(Start(1, 0), a + [again] + [b1], s2, b2);
    ReachesSnoc(Start(1, 0), a + [again] + [b1] + [b2], s3, b3);
    ReachesSnoc(Start(1, 0), a + [again] + [b1] + [b2] + [b3], s4, again);
    steps := a + [again] + [b1] + [b2] + [b3] + [again];
    LatestSnoc(c.grants, Grant(1, 7), 1);
  }
}
