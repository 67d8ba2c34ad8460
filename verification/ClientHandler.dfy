/**
 * The client's side of the keepalive protocol: it decodes the notifications of
 * a datagram one by one, leaves out those it already knows, acts on the others
 * and acknowledges by the id of the last one it knows.
 */
module ClientHandler {
  import opened Sequences
  import opened Serialization
  import opened Keepalive

  datatype LockStatus = Unlocked | Pending | Granted

  /** What a `lock` call fills in for its caller. */
  datatype Sequencer = Sequencer(mode: nat, generation: nat)

  /**
   * What the client keeps for an open handle: the lock status and mode, the
   * generation that `get_sequencer` hands out, and the sequencer of the last
   * `lock` call, which a later `try_lock` takes away.
   */
  datatype HandleState = HandleState(
    status: LockStatus,
    lockMode: nat,
    lockGeneration: nat,
    sequencer: Option<Sequencer>)

  /** A lock was granted to a handle. */
  datatype Grant = Grant(handle: nat, generation: nat)

  /**
   * Histories: `acted` is the notifications the client has acted on, `grants`
   * the grants it has learned of, by such a notification or by a reply.
   */
  datatype Client = Client(
    sessionId: nat,
    lastKnown: nat,
    handles: map<nat, HandleState>,
    acted: seq<Notification>,
    grants: seq<Grant>,
    expired: bool,
    dead: bool)

  /** A grant that is not known is written to the sequencer, which has to be there. */
  predicate Accepts(c: Client, n: Notification) {
    n.handle in c.handles &&
    (n.event.LockGranted? && n.event.id > c.lastKnown ==> c.handles[n.handle].sequencer.Some?)
  }

  /**
   * One notification whose handle is registered.  A grant stores its generation
   * before the test for known events; the other effects come after the test.
   */
  function Act(c: Client, n: Notification): Client
    requires Accepts(c, n)
  {
    match n.event
    case LockGranted(id, mode, generation) =>
      var h := c.handles[n.handle].(lockGeneration := generation);
      if id <= c.lastKnown then
        c.(handles := c.handles[n.handle := h])
      else
        var g := h.(status := Granted, sequencer := Some(Sequencer(mode, generation)));
        c.(handles := c.handles[n.handle := g], acted := c.acted + [n], lastKnown := id,
           grants := c.grants + [Grant(n.handle, generation)])
    case Unrecognised(id, _) =>
      c.(lastKnown := id)
    case _ =>
      if n.event.id <= c.lastKnown then c
      else c.(acted := c.acted + [n], lastKnown := n.event.id)
  }

  /** The notification is accepted whether it is known or not. */
  predicate Ready(c: Client, n: Notification) {
    n.handle in c.handles && (n.event.LockGranted? ==> c.handles[n.handle].sequencer.Some?)
  }

  // ----- What the caller's side does to a handle -----

  /** The calls of an application that change the state of a handle, and the replies to them. */
  datatype Call =
    | OpenReply(handle: nat, mode: nat, generation: nat)     // the generation is 0 when no lock was asked for
    | LockCall(handle: nat, mode: nat, filled: nat)          // the sequencer given holds the generation `filled`
    | LockReply(handle: nat, mode: nat, generation: nat)
    | LockWaits(handle: nat, mode: nat)                      // the reply that the request is pending
    | TryLockReply(handle: nat, mode: nat, generation: nat)
    | ReleaseReply(handle: nat)

  /** A lock is asked for only when it is not held or awaited, and its reply finds the sequencer of the call. */
  predicate Possible(c: Client, call: Call) {
    match call
    case OpenReply(handle, _, _) => handle !in c.handles
    case LockCall(handle, _, _) => handle in c.handles && c.handles[handle].status.Unlocked?
    case LockReply(handle, _, _) => handle in c.handles && c.handles[handle].sequencer.Some?
    case LockWaits(handle, _) => handle in c.handles && c.handles[handle].sequencer.Some?
    case TryLockReply(handle, _, _) => handle in c.handles
    case ReleaseReply(handle) => handle in c.handles
  }

  function Called(c: Client, call: Call): Client
    requires Possible(c, call)
  {
    match call
    case OpenReply(handle, mode, generation) =>
      c.(handles := c.handles[handle := HandleState(Unlocked, mode, generation, None)],
         grants := if generation == 0 then c.grants else c.grants + [Grant(handle, generation)])
    case LockCall(handle, mode, filled) =>
      c.(handles := c.handles[handle := c.handles[handle].(sequencer := Some(Sequencer(mode, filled)))])
    case LockReply(handle, mode, generation) =>
      var sequencer := c.handles[handle].sequencer.value.(generation := generation);
      c.(handles := c.handles[handle := HandleState(Granted, mode, generation, Some(sequencer))],
         grants := c.grants + [Grant(handle, generation)])
    case LockWaits(handle, mode) =>
      c.(handles := c.handles[handle := c.handles[handle].(status := Pending, lockMode := mode)])
    case TryLockReply(handle, mode, generation) =>
      c.(handles := c.handles[handle := HandleState(Granted, mode, generation, None)],
         grants := c.grants + [Grant(handle, generation)])
    case ReleaseReply(handle) =>
      c.(handles := c.handles[handle := c.handles[handle].(status := Unlocked)])
  }

  // ----- The loop over the notifications -----

  /** How far a notification gets that is not accepted: a grant is stored before its sequencer is missed. */
  function Crash(c: Client, n: Notification): Client
    requires !Accepts(c, n)
  {
    if n.handle !in c.handles then c
    else
      var h := c.handles[n.handle].(lockGeneration := n.event.generation, status := Granted);
      c.(handles := c.handles[n.handle := h])
  }

  /** Nothing but the state of handles, the histories and the last known event changes, and histories grow. */
  predicate Continues(c: Client, d: Client) {
    && d.sessionId == c.sessionId && d.dead == c.dead && d.expired == c.expired
    && c.acted <= d.acted && c.grants <= d.grants && d.handles.Keys == c.handles.Keys
  }

  /** One pass of the loop. */
  datatype Turn = Next(c: Client, rest: bytes) | Threw | Broke(c: Client)

  function ProcessTurn(c: Client, s: bytes): (t: Turn)
    ensures !t.Threw? ==> Continues(c, t.c)
  {
    match DecodeHead(s)
    case Err(_) => Threw
    case Ok((h, t)) =>
      if h.handle !in c.handles then Broke(c)
      else
        match DecodePayload(h, t)
        case Err(_) => Threw
        case Ok((e, u)) =>
          var n := Notification(h.handle, e);
          if Accepts(c, n) then Next(Act(c, n), u) else Broke(Crash(c, n))
  }

  datatype Outcome =
    | Done(c: Client, rest: bytes)
    | Failed(c: Client)   // an exception from a decoder; what was done before it stays done
    | Crashed(c: Client)  // the assertion that the handle is registered, or a grant without a sequencer

  /** Decodes and handles `count` notifications. */
  function Process(c: Client, count: nat, s: bytes): (o: Outcome)
    ensures Continues(c, o.c)
    decreases count
  {
    if count == 0 then Done(c, s)
    else
      match ProcessTurn(c, s)
      case Threw => Failed(c)
      case Broke(c1) => Crashed(c1)
      case Next(c1, u) => Process(c1, count - 1, u)
  }

  /** The keepalive branch of the handler: the new state and the datagram it sends. */
  function HandleMessage(c: Client, msg: bytes): (Client, Option<bytes>) {
    if c.dead then (c, None)
    else
      match DecodeInt(msg, 2)
      case Err(_) => (c, None)
      case Ok((command, m1)) =>
        if command != COMMAND_KEEPALIVE || c.expired then (c, None)
        else
          match DecodeInt(m1, 8)
          case Err(_) => (c, None)
          case Ok((sessionId, m2)) =>
            match DecodeInt(m2, 4)
            case Err(_) => (c, None)
            case Ok((error, m3)) =>
              if error != ERROR_OK then (c.(expired := true), None)
              else
                var c1 := if c.sessionId == 0 then c.(sessionId := sessionId) else c;
                match DecodeInt(m3, 4)
                case Err(_) => (c1, None)
                case Ok((count, m4)) =>
                  match Process(c1, count, m4)
                  case Failed(c2) => (c2, None)
                  case Crashed(c2) => (c2.(dead := true), None)
                  case Done(c2, _) =>
                    (if c2.sessionId != sessionId then c2.(dead := true) else c2,
                     if count > 0 then Some(ClientKeepalive(c2.sessionId, c2.lastKnown, false)) else None)
  }

  /** The handler object, whose fields the loop over the notifications updates. */
  class ClientKeepaliveHandler {
    var dead: bool
    var expired: bool
    var sessionId: nat
    var lastKnownEvent: nat
    var handleMap: map<nat, HandleState>
    var acted: seq<Notification>
    var grants: seq<Grant>

    ghost function Value(): Client
      reads this
    {
      Client(sessionId, lastKnownEvent, handleMap, acted, grants, expired, dead)
    }

    constructor ()
      ensures Value() == Client(0, 0, map[], [], [], false, false)
    {
      dead, expired, sessionId, lastKnownEvent := false, false, 0, 0;
      handleMap, acted, grants := map[], [], [];
    }

    /** The end of `open`: the handle is registered with the generation of the reply. */
    method OpenReplied(handle: nat, mode: nat, generation: nat)
      requires Possible(Value(), OpenReply(handle, mode, generation))
      modifies this
      ensures Value() == Called(old(Value()), OpenReply(handle, mode, generation))
    {
      handleMap := handleMap[handle := HandleState(Unlocked, mode, generation, None)];
      if generation != 0 {
        grants := grants + [Grant(handle, generation)];
      }
    }

    /** The start of `lock`; a lock that is held or awaited is refused. */
    method LockCalled(handle: nat, mode: nat, filled: nat) returns (refused: bool)
      requires handle in handleMap
      modifies this
      ensures refused == !Possible(old(Value()), LockCall(handle, mode, filled))
      ensures Value() == if refused then old(Value()) else Called(old(Value()), LockCall(handle, mode, filled))
    {
      if !handleMap[handle].status.Unlocked? {
        return true;
      }
      handleMap := handleMap[handle := handleMap[handle].(sequencer := Some(Sequencer(mode, filled)))];
      return false;
    }

    /** The reply to `lock`: granted with a generation, or pending. */
    method LockReplied(handle: nat, mode: nat, granted: Option<nat>)
      requires handle in handleMap && handleMap[handle].sequencer.Some?
      modifies this
      ensures Value() == Called(old(Value()), if granted.Some? then LockReply(handle, mode, granted.value)
                                              else LockWaits(handle, mode))
    {
      handleMap := handleMap[handle := handleMap[handle].(lockMode := mode)];
      if granted.Some? {
        var sequencer := handleMap[handle].sequencer.value.(generation := granted.value);
        handleMap := handleMap[handle := handleMap[handle].(sequencer := Some(sequencer))];
        handleMap := handleMap[handle := handleMap[handle].(lockGeneration := sequencer.generation, status := Granted)];
        grants := grants + [Grant(handle, granted.value)];
      } else {
        handleMap := handleMap[handle := handleMap[handle].(status := Pending)];
      }
    }

    /** The reply to `try_lock` that it is granted; the handle gives its sequencer up. */
    method TryLockReplied(handle: nat, mode: nat, generation: nat)
      requires handle in handleMap
      modifies this
      ensures Value() == Called(old(Value()), TryLockReply(handle, mode, generation))
    {
      handleMap := handleMap[handle := handleMap[handle].(lockMode := mode, status := Granted)];
      handleMap := handleMap[handle := handleMap[handle].(lockGeneration := generation, sequencer := None)];
      grants := grants + [Grant(handle, generation)];
    }

    /** The reply to `release`; the generation stays. */
    method ReleaseReplied(handle: nat)
      requires handle in handleMap
      modifies this
      ensures Value() == Called(old(Value()), ReleaseReply(handle))
    {
      handleMap := handleMap[handle := handleMap[handle].(status := Unlocked)];
    }

    /** The body of the loop, after the payload has been decoded; a sequencer that is missing is fatal. */
    method Dispatch(handle: nat, e: Event) returns (crashed: bool)
      requires handle in handleMap
      modifies this
      ensures
        if Accepts(old(Value()), Notification(handle, e))
        then !crashed && Value() == Act(old(Value()), Notification(handle, e))
        else crashed && Value() == Crash(old(Value()), Notification(handle, e))
    {
      crashed := false;
      if e.LockGranted? {
        handleMap := handleMap[handle := handleMap[handle].(lockGeneration := e.generation)];
        if e.id <= lastKnownEvent {
          return;
        }
        handleMap := handleMap[handle := handleMap[handle].(status := Granted)];
        if handleMap[handle].sequencer.None? {
          return true;
        }
        handleMap := handleMap[handle := handleMap[handle].(
          sequencer := Some(Sequencer(e.mode, handleMap[handle].lockGeneration)))];
        acted, grants := acted + [Notification(handle, e)], grants + [Grant(handle, e.generation)];
      } else if !e.Unrecognised? {
        if e.id <= lastKnownEvent {
          return;
        }
        acted := acted + [Notification(handle, e)];
      }
      lastKnownEvent := e.id;
    }

    /** One pass of the loop: `None` is a crash. */
    method ProcessOne(msg: bytes) returns (next: Option<Result<bytes>>)
      modifies this
      ensures
        match ProcessTurn(old(Value()), msg)
        case Threw => next.Some? && next.value.Err? && Value() == old(Value())
        case Broke(c) => next == None && Value() == c
        case Next(c, u) => next == Some(Ok(u)) && Value() == c
    {
      var head := DecodeHead(msg);
      if head.Err? {
        return Some(Err(head.error));
      }
      var h := head.value.0;
      if h.handle !in handleMap {
        return None;
      }
      var payload := DecodePayload(h, head.value.1);
      if payload.Err? {
        return Some(Err(payload.error));
      }
      var crashed := Dispatch(h.handle, payload.value.0);
      return if crashed then None else Some(Ok(payload.value.1));
    }

    /** The loop over the notifications of a datagram. */
    method ProcessNotifications(count: nat, msg: bytes) returns (crashed: bool, failed: bool)
      modifies this
      ensures
        match Process(old(Value()), count, msg)
        case Done(c, _) => !crashed && !failed && Value() == c
        case Failed(c) => !crashed && failed && Value() == c
        case Crashed(c) => crashed && !failed && Value() == c
    {
      hide ProcessTurn;
      var ptr := msg;
      var i := 0;
      while i < count
        invariant i <= count && Process(old(Value()), count, msg) == Process(Value(), count - i, ptr)
      {
        var next := ProcessOne(ptr);
        if next.None? {
          return true, false;
        }
        if next.value.Err? {
          return false, true;
        }
        ptr := next.value.value;
        i := i + 1;
      }
      return false, false;
    }

    method Handle(msg: bytes) returns (reply: Option<bytes>)
      modifies this
      ensures (Value(), reply) == HandleMessage(old(Value()), msg)
    {
      reply := None;
      if dead {
        return;
      }
      var command := DecodeInt(msg, 2);
      if command.Err? || command.value.0 != COMMAND_KEEPALIVE || expired {
        return;
      }
      var id := DecodeInt(command.value.1, 8);
      if id.Err? {
        return;
      }
      var error := DecodeInt(id.value.1, 4);
      if error.Err? {
        return;
      }
      if error.value.0 != ERROR_OK {
        expired := true;
        return;
      }
      if sessionId == 0 {
        sessionId := id.value.0;
      }
      var notifications := DecodeInt(error.value.1, 4);
      if notifications.Err? {
        return;
      }
      var crashed, failed := ProcessNotifications(notifications.value.0, notifications.value.1);
      if crashed {
        dead := true;
      } else if !failed {
        if notifications.value.0 > 0 {
          reply := Some(ClientKeepalive(sessionId, lastKnownEvent, false));
        }
        if sessionId != id.value.0 {
          dead := true;
        }
      }
    }
  }

  // ----- A datagram that the server built -----

  /** The notifications one after the other; one that is not accepted ends it. */
  function ActAll(c: Client, ns: seq<Notification>): Client
    decreases |ns|
  {
    if ns == [] then c
    else if !Accepts(c, ns[0]) then Crash(c, ns[0]).(dead := true)
    else ActAll(Act(c, ns[0]), ns[1..])
  }

  lemma {:induction false} ProcessEncoded(c: Client, ns: seq<Notification>, rest: bytes)
    requires AllValid(ns) && !c.dead
    ensures EncodeNotifications(ns).Ok?
    ensures
      match Process(c, |ns|, EncodeNotifications(ns).value + rest)
      case Done(c', r) => c' == ActAll(c, ns) && r == rest && !c'.dead && c'.sessionId == c.sessionId
      case Failed(_) => false
      case Crashed(c') => c'.(dead := true) == ActAll(c, ns)
    decreases |ns|
  {
    hide ProcessTurn, Accepts, Act, Crash, EncodeNotification, DecodeNotifications, Valid;
    if ns == [] {
      assert [] + rest == rest;
    } else {
      TurnEncoded(c, ns, rest);
      if Accepts(c, ns[0]) {
        ActKeepsAlive(c, ns[0]);
        ProcessEncoded(Act(c, ns[0]), ns[1..], rest);
      }
    }
  }

  lemma ActKeepsAlive(c: Client, n: Notification)
    requires Accepts(c, n)
    ensures Continues(c, Act(c, n))
  {
  }

  /** The notification at place `i` of a list is not known when the loop reaches it. */
  ghost predicate IsNew(ns: seq<Notification>, i: nat, known: nat)
    requires i < |ns|
  {
    ns[i].event.id > known && forall j :: 0 <= j < i ==> ns[j].event.id < ns[i].event.id
  }

  /** Its handle is open, and a new grant finds a sequencer. */
  ghost predicate AcceptedAt(c: Client, ns: seq<Notification>, i: nat)
    requires i < |ns|
  {
    ns[i].handle in c.handles &&
    (ns[i].event.LockGranted? && IsNew(ns, i, c.lastKnown) ==> c.handles[ns[i].handle].sequencer.Some?)
  }

  ghost predicate Survives(c: Client, ns: seq<Notification>) {
    forall i :: 0 <= i < |ns| ==> AcceptedAt(c, ns, i)
  }

  function Farther(known: nat, n: Notification): nat {
    if n.event.id > known then n.event.id else known
  }

  lemma NewLater(ns: seq<Notification>, i: nat, known: nat)
    requires 0 < i < |ns|
    ensures IsNew(ns, i, known) <==> IsNew(ns[1..], i - 1, Farther(known, ns[0]))
  {
    assert ns[1..][i - 1] == ns[i];
    if IsNew(ns[1..], i - 1, Farther(known, ns[0])) {
      forall j | 0 <= j < i ensures ns[j].event.id < ns[i].event.id {
        assert j > 0 ==> ns[1..][j - 1] == ns[j];
      }
    }
  }

  /** A notification that is accepted takes no handle and no sequencer away. */
  lemma ActKeepsSequencers(c: Client, n: Notification, h: nat)
    requires Accepts(c, n) && Valid(n)
    ensures Act(c, n).lastKnown == Farther(c.lastKnown, n)
    ensures h in Act(c, n).handles <==> h in c.handles
    ensures h in c.handles ==> (Act(c, n).handles[h].sequencer.Some? <==> c.handles[h].sequencer.Some?)
  {
  }

  lemma SurvivesRest(c: Client, d: Client, ns: seq<Notification>)
    requires ns != [] && AcceptedAt(c, ns, 0)
    requires forall i :: 0 <= i < |ns[1..]| ==> (AcceptedAt(d, ns[1..], i) <==> AcceptedAt(c, ns, i + 1))
    ensures Survives(c, ns) <==> Survives(d, ns[1..])
  {
    hide AcceptedAt;
    if Survives(d, ns[1..]) {
      forall i | 0 <= i < |ns| ensures AcceptedAt(c, ns, i) {
        assert i > 0 ==> AcceptedAt(d, ns[1..], i - 1);
      }
    }
  }

  /** The client survives a datagram exactly when it accepts every notification where that stands. */
  lemma {:induction false} SurvivesExactly(c: Client, ns: seq<Notification>)
    requires AllValid(ns) && !c.dead
    ensures !ActAll(c, ns).dead <==> Survives(c, ns)
    decreases |ns|
  {
    hide Act, Crash, Valid;
    if ns != [] {
      assert Accepts(c, ns[0]) <==> AcceptedAt(c, ns, 0);
      if Accepts(c, ns[0]) {
        var d := Act(c, ns[0]);
        ActKeepsAlive(c, ns[0]);
        SurvivesExactly(d, ns[1..]);
        forall i | 0 <= i < |ns[1..]| ensures AcceptedAt(d, ns[1..], i) <==> AcceptedAt(c, ns, i + 1) {
          NewLater(ns, i + 1, c.lastKnown);
          ActKeepsSequencers(c, ns[0], ns[i + 1].handle);
        }
        SurvivesRest(c, d, ns);
      }
    }
  }

  /** The notifications of a list that are not known when the loop reaches them. */
  function News(ns: seq<Notification>, known: nat): (r: seq<Notification>)
    decreases |ns|
  {
    if ns == [] then []
    else (if ns[0].event.id > known then [ns[0]] else []) + News(ns[1..], Farther(known, ns[0]))
  }

  /** A notification is among them exactly when it is new at some place. */
  lemma {:induction false} NewsAre(ns: seq<Notification>, known: nat, n: Notification)
    ensures n in News(ns, known) <==> exists i :: 0 <= i < |ns| && ns[i] == n && IsNew(ns, i, known)
    decreases |ns|
  {
    if ns != [] {
      var far := Farther(known, ns[0]);
      NewsAre(ns[1..], far, n);
      if i :| 0 <= i < |ns| && ns[i] == n && IsNew(ns, i, known) {
        if i > 0 {
          NewLater(ns, i, known);
          assert ns[1..][i - 1] == n;
        }
      }
      if i :| 0 <= i < |ns[1..]| && ns[1..][i] == n && IsNew(ns[1..], i, far) {
        NewLater(ns, i + 1, known);
        assert ns[i + 1] == n;
      }
      if ns[0] == n && ns[0].event.id > known {
        assert IsNew(ns, 0, known);
      }
    }
  }

  /** The farthest of an event id and those of a list. */
  function FarthestId(ns: seq<Notification>, known: nat): (id: nat)
    ensures id >= known && forall i :: 0 <= i < |ns| ==> id >= ns[i].event.id
    ensures id == known || exists i :: 0 <= i < |ns| && id == ns[i].event.id
    decreases |ns|
  {
    if ns == [] then known
    else
      var id := FarthestId(ns[1..], Farther(known, ns[0]));
      assert forall i :: 0 <= i < |ns[1..]| ==> ns[1..][i] == ns[i + 1];
      id
  }

  /**
   * The client on any list that it survives: it acts on exactly the entries
   * that are new where they stand, in their order, and knows the farthest.
   */
  lemma {:induction false} ActsOnNews(c: Client, ns: seq<Notification>)
    requires AllValid(ns) && !ActAll(c, ns).dead
    ensures ActAll(c, ns).acted == c.acted + News(ns, c.lastKnown)
    ensures ActAll(c, ns).lastKnown == FarthestId(ns, c.lastKnown)
    decreases |ns|
  {
    hide Valid;
    if ns == [] {
      assert c.acted + [] == c.acted;
    } else {
      assert Valid(ns[0]);
      ActOnOne(c, ns[0]);
      ActsOnNews(Act(c, ns[0]), ns[1..]);
      var first := if ns[0].event.id > c.lastKnown then [ns[0]] else [];
      Assoc(c.acted, first, News(ns[1..], Farther(c.lastKnown, ns[0])));
    }
  }

  lemma ActOnOne(c: Client, n: Notification)
    requires Accepts(c, n) && Valid(n)
    ensures Act(c, n).acted == c.acted + (if n.event.id > c.lastKnown then [n] else [])
    ensures Act(c, n).lastKnown == Farther(c.lastKnown, n)
  {
    assert c.acted + [] == c.acted;
  }

  /** An event of a kind that the client does not know makes its id the last known one, even if it is smaller. */
  lemma UnknownKindSetsLast(c: Client, handle: nat, id: nat, mask: nat)
    requires handle in c.handles
    ensures var n := Notification(handle, Unrecognised(id, mask));
            Accepts(c, n) && Act(c, n).lastKnown == id && Act(c, n) == c.(lastKnown := Act(c, n).lastKnown)
  {
  }

  // ----- What calls and replies leave -----

  /** The state of the handle after a call or a reply; nothing else changes but the history of grants. */
  lemma CallLeaves(c: Client, call: Call)
    requires Possible(c, call)
    ensures var d := Called(c, call);
            && d == c.(handles := d.handles, grants := d.grants)
            && d.handles.Keys == c.handles.Keys + {call.handle}
            && (forall h :: h in c.handles && h != call.handle ==> d.handles[h] == c.handles[h])
    ensures var d := Called(c, call).handles[call.handle];
            match call
            case OpenReply(_, mode, generation) =>
              d.status.Unlocked? && d.lockMode == mode && d.lockGeneration == generation && d.sequencer.None?
            case LockCall(h, mode, filled) =>
              d.status.Unlocked? && d.lockMode == c.handles[h].lockMode && d.sequencer == Some(Sequencer(mode, filled))
            case LockReply(h, mode, generation) =>
              d.status.Granted? && d.lockMode == mode && d.lockGeneration == generation &&
              d.sequencer == Some(Sequencer(c.handles[h].sequencer.value.mode, generation))
            case LockWaits(h, mode) =>
              d.status.Pending? && d.lockMode == mode && d.sequencer == c.handles[h].sequencer
            case TryLockReply(_, mode, generation) =>
              d.status.Granted? && d.lockMode == mode && d.lockGeneration == generation && d.sequencer.None?
            case ReleaseReply(h) =>
              d.status.Unlocked? && d.lockMode == c.handles[h].lockMode && d.sequencer == c.handles[h].sequencer
    ensures (call.LockCall? || call.LockWaits? || call.ReleaseReply?) ==>
              Called(c, call).handles[call.handle].lockGeneration == c.handles[call.handle].lockGeneration
    ensures Called(c, call).grants ==
            if call.LockReply? || call.TryLockReply? || (call.OpenReply? && call.generation != 0)
            then c.grants + [Grant(call.handle, call.generation)] else c.grants
  {
  }

  /** A handle takes part in one request at a time: after a grant or while it waits, only a release lets it go on. */
  lemma AsksOnce(c: Client, call: Call, mode: nat, filled: nat)
    requires Possible(c, call)
    ensures Possible(Called(c, call), LockCall(call.handle, mode, filled)) <==>
            call.OpenReply? || call.LockCall? || call.ReleaseReply?
  {
  }

  /** One pass over the encoding of a notification handles it. */
  lemma TurnOne(c: Client, n: Notification, rest: bytes)
    requires Valid(n)
    ensures EncodeNotification(n).Ok?
    ensures ProcessTurn(c, EncodeNotification(n).value + rest) ==
            if Accepts(c, n) then Next(Act(c, n), rest) else Broke(Crash(c, n))
  {
    hide EncodeNotification, EncodePayload, DecodeHead, DecodePayload, Valid, Act;
    NotificationRoundTrip(n, rest);
  }

  lemma TurnEncoded(c: Client, ns: seq<Notification>, rest: bytes)
    requires AllValid(ns) && ns != []
    ensures EncodeNotifications(ns).Ok? && EncodeNotifications(ns[1..]).Ok?
    ensures
      ProcessTurn(c, EncodeNotifications(ns).value + rest) ==
        if Accepts(c, ns[0]) then Next(Act(c, ns[0]), EncodeNotifications(ns[1..]).value + rest)
        else Broke(Crash(c, ns[0]))
  {
    hide ProcessTurn, Accepts, Act, Crash, EncodeNotification, DecodeNotifications, Valid;
    ListRoundTrip(ns, rest);
    ListRoundTrip(ns[1..], rest);
    var tail := EncodeNotifications(ns[1..]).value;
    TurnOne(c, ns[0], tail + rest);
    Assoc(EncodeNotification(ns[0]).value, tail, rest);
  }

  /** A list that breaks off: what came before is acted on, and the rest of the datagram is not handled. */
  lemma {:induction false} ProcessTruncated(c: Client, ns: seq<Notification>, part: bytes, more: nat)
    requires AllValid(ns) && !c.dead && !ActAll(c, ns).dead && more > 0 && DecodeHead(part).Err?
    ensures EncodeNotifications(ns).Ok?
    ensures Process(c, |ns| + more, EncodeNotifications(ns).value + part) == Failed(ActAll(c, ns))
    decreases |ns|
  {
    hide Accepts, Act, Crash, EncodeNotification, DecodeNotifications, Valid, DecodeHead, DecodePayload;
    if ns == [] {
      assert [] + part == part;
    } else {
      TurnEncoded(c, ns, part);
      ActKeepsAlive(c, ns[0]);
      ProcessTruncated(Act(c, ns[0]), ns[1..], part, more);
    }
  }

  /** Such a datagram is not acknowledged, and a message of another kind is ignored. */
  lemma TruncatedNotAnswered(c: Client, ns: seq<Notification>, part: bytes, count: nat)
    requires AllValid(ns) && |ns| < count < P32 && 0 < c.sessionId < P64 && !c.dead && !c.expired
    requires !ActAll(c, ns).dead && DecodeHead(part).Err?
    ensures EncodeNotifications(ns).Ok?
    ensures HandleMessage(c, KeepaliveHead(c.sessionId, ERROR_OK, count) + (EncodeNotifications(ns).value + part)) ==
            (ActAll(c, ns), None)
  {
    hide Process, ActAll, EncodeNotifications, DecodeHead, Valid;
    ProcessTruncated(c, ns, part, count - |ns|);
    HeadDecodes(c.sessionId, ERROR_OK, count, EncodeNotifications(ns).value + part);
  }

  lemma OtherMessagesIgnored(c: Client, msg: bytes)
    requires |msg| < 2 || IntValue(msg[..2]) != COMMAND_KEEPALIVE
    ensures HandleMessage(c, msg) == (c, None)
  {
  }

  /** The client that takes over the session id of the first datagram. */
  function Adopted(c: Client, id: nat): Client {
    if c.sessionId == 0 then c.(sessionId := id) else c
  }

  /**
   * Any datagram that a server built: a client without a session takes over its
   * id; the list is acted on and acknowledged; and a client of another session
   * fails its assertion after that.
   */
  lemma DatagramHandled(c: Client, id: nat, ns: seq<Notification>)
    requires AllValid(ns) && |ns| < P32 && id < P64 && !c.dead && !c.expired
    ensures ServerKeepalive(id, ns).Ok?
    ensures
      var d := ActAll(Adopted(c, id), ns);
      HandleMessage(c, ServerKeepalive(id, ns).value) ==
        (if Adopted(c, id).sessionId == id then d else d.(dead := true),
         if ns != [] && !d.dead then Some(ClientKeepalive(Adopted(c, id).sessionId, d.lastKnown, false)) else None)
  {
    hide Process, ActAll, EncodeNotifications, DecodeNotifications, Valid;
    ProcessEncoded(Adopted(c, id), ns, []);
    var list := EncodeNotifications(ns).value;
    HeadDecodes(id, ERROR_OK, |ns|, list);
    assert list + [] == list;
  }

  /** What the client does with a datagram of its session depends only on the notifications in it. */
  lemma HandleEncoded(c: Client, ns: seq<Notification>)
    requires AllValid(ns) && |ns| < P32 && c.sessionId < P64 && c.sessionId != 0 && !c.dead && !c.expired
    ensures ServerKeepalive(c.sessionId, ns).Ok?
    ensures
      HandleMessage(c, ServerKeepalive(c.sessionId, ns).value) ==
        (ActAll(c, ns),
         if ns != [] && !ActAll(c, ns).dead
         then Some(ClientKeepalive(c.sessionId, ActAll(c, ns).lastKnown, false))
         else None)
  {
    hide HandleMessage, ServerKeepalive, ActAll;
    DatagramHandled(c, c.sessionId, ns);
  }

  lemma HeadDecodes(sessionId: nat, error: nat, count: nat, rest: bytes)
    requires sessionId < P64 && error < P32 && count < P32
    ensures
      var s := KeepaliveHead(sessionId, error, count) + rest;
      && DecodeInt(s, 2) == Ok((COMMAND_KEEPALIVE, s[2..]))
      && DecodeInt(s[2..], 8) == Ok((sessionId, s[10..]))
      && DecodeInt(s[10..], 4) == Ok((error, s[14..]))
      && DecodeInt(s[14..], 4) == Ok((count, rest))
  {
    Widths();
    var a, b := EncodeInt(COMMAND_KEEPALIVE, 2), EncodeInt(sessionId, 8);
    var c, d := EncodeInt(error, 4), EncodeInt(count, 4);
    var s := KeepaliveHead(sessionId, error, count) + rest;
    assert s[14..] == d + rest;
    assert s[10..] == c + s[14..];
    assert s[2..] == b + s[10..];
    assert s == a + s[2..];
    DecodeEncodeInt(COMMAND_KEEPALIVE, 2, s[2..]);
    DecodeEncodeInt(sessionId, 8, s[10..]);
    DecodeEncodeInt(error, 4, s[14..]);
    DecodeEncodeInt(count, 4, rest);
  }

  lemma ErrorExpires(c: Client, error: nat)
    requires c.sessionId < P64 && 0 < error < P32 && !c.dead
    ensures HandleMessage(c, ServerError(c.sessionId, error)) == (c.(expired := true), None)
  {
    HeadDecodes(c.sessionId, error, 0, []);
    assert KeepaliveHead(c.sessionId, error, 0) + [] == ServerError(c.sessionId, error);
  }
}
