/**
 * The locks of one Hyperspace node: who holds it, who waits for it, and which
 * generation each grant carries.  Critical sections of the master are single
 * steps; whether the database takes an update is a parameter of the step.
 */
module Locks {
  import opened Sequences

  datatype Mode = Shared | Exclusive

  datatype LockRequest = LockRequest(handle: nat, mode: Mode)

  /** The lock fields of a node; `exclusive` is 0 when nobody holds it so, `locked` are the flags of the handles. */
  datatype LockState = LockState(curMode: Option<Mode>, exclusive: nat, shared: set<nat>,
                                 locked: set<nat>, pending: seq<LockRequest>)

  /**
   * A node: its locks, the open handles, the last handle number, the lock
   * generation in memory (0 before the node is first opened), whether it exists
   * in the database, the generation stored there (0 when there is none), and
   * the generations of all grants so far.
   */
  datatype Node = Node(locks: LockState, live: set<nat>, lastHandle: nat, generation: nat,
                       present: bool, stored: nat, grants: seq<nat>)

  const Unlocked := LockState(None, 0, {}, {}, [])

  const Fresh := Node(Unlocked, {}, 1, 0, false, 0, [])

  // ----- Granting -----

  function Grant(l: LockState, handle: nat, mode: Mode): LockState {
    var held := l.(locked := l.locked + {handle});
    if mode.Shared? then held.(shared := held.shared + {handle}) else held.(exclusive := handle)
  }

  /** Everybody in a group gets the lock. */
  function GrantAll(l: LockState, handles: seq<nat>, mode: Mode): LockState
    decreases |handles|
  {
    if handles == [] then l else GrantAll(Grant(l, handles[0], mode), handles[1..], mode)
  }

  // ----- Asking for the lock -----

  datatype Reply = Granted(generation: nat) | Busy | Pending | Failed

  /** Whether a request has to wait: the lock is taken in a mode that excludes it, or others wait already. */
  predicate MustWait(l: LockState, mode: Mode) {
    l.curMode == Some(Exclusive) || (l.curMode == Some(Shared) && (mode.Exclusive? || l.pending != []))
  }

  /** A request for the lock; `ok` says whether the database takes the new generation. */
  function Lock(s: Node, handle: nat, mode: Mode, try: bool, ok: bool): (Node, Reply) {
    if MustWait(s.locks, mode) then
      if try then (s, Busy)
      else (s.(locks := s.locks.(pending := s.locks.pending + [LockRequest(handle, mode)])), Pending)
    else
      var generation := s.generation + 1;
      if !ok then (s.(generation := generation), Failed)
      else (s.(generation := generation, stored := generation, grants := s.grants + [generation],
               locks := Grant(s.locks.(curMode := Some(mode)), handle, mode)),
            Granted(generation))
  }

  // ----- Opening a handle -----

  /** An open that asks for the lock is refused when the lock is held in a mode that excludes it. */
  predicate Conflict(l: LockState, mode: Option<Mode>) {
    match mode
    case None => false
    case Some(Shared) => l.exclusive != 0
    case Some(Exclusive) => l.exclusive != 0 || l.shared != {}
  }

  /** The generation in memory once the node is opened: read from the database, or 1. */
  function OpenedGeneration(s: Node): nat {
    if !s.present then 1
    else if s.generation != 0 then s.generation
    else if s.stored != 0 then s.stored
    else 1
  }

  /**
   * Opens a handle, creating the node when it is missing.  An attempt that is
   * repeated because of a database deadlock has read the generation, and raised
   * it when the lock is asked for; the last attempt succeeds when `ok`.
   */
  function Open(s: Node, mode: Option<Mode>, create: bool, retries: nat, ok: bool): Node {
    if Conflict(s.locks, mode) || (!s.present && !create) then s
    else
      var first := OpenedGeneration(s);
      var raised := if mode.None? then 0 else if s.present then retries + 1 else 1;
      var generation := first + raised;
      if !ok then s.(generation := generation)
      else
        var handle := s.lastHandle + 1;
        var stores := mode.Some? || !s.present || (retries == 0 && s.generation == 0 && s.stored == 0);
        var open := s.(generation := generation, present := true, live := s.live + {handle}, lastHandle := handle,
                       stored := if stores then generation else s.stored);
        if mode.None? then open
        else open.(grants := s.grants + [generation],
                   locks := Grant(s.locks.(curMode := mode), handle, mode.value))
  }

  // ----- Releasing -----

  /** How much of a release waits until no shared holder is left. */
  datatype Guard =
    | AsWritten  // nothing: the mode is always reset and the lock always handed over
    | ResetOnly  // the mode is reset only then, but the lock is always handed over
    | Both       // the mode is reset and the lock is handed over only then

  function SharedPrefix(pending: seq<LockRequest>): (n: nat)
    ensures n <= |pending|
    ensures forall i :: 0 <= i < n ==> pending[i].mode.Shared?
    ensures n < |pending| ==> pending[n].mode.Exclusive?
  {
    if pending == [] || pending[0].mode.Exclusive? then 0 else 1 + SharedPrefix(pending[1..])
  }

  /** How many requests a hand-over takes from the queue: one exclusive one, or all shared ones at the front. */
  function FrontGroup(pending: seq<LockRequest>): (n: nat)
    requires pending != []
    ensures 1 <= n <= |pending|
  {
    if pending[0].mode.Exclusive? then 1 else SharedPrefix(pending)
  }

  /** The handles of some requests that are still open, in order. */
  function LiveHandles(requests: seq<LockRequest>, live: set<nat>): seq<nat> {
    if requests == [] then []
    else if requests[0].handle in live then [requests[0].handle] + LiveHandles(requests[1..], live)
    else LiveHandles(requests[1..], live)
  }

  /** The open handles in the front group. */
  function NextHandles(s: Node): seq<nat> {
    if s.locks.pending == [] then [] else LiveHandles(s.locks.pending[..FrontGroup(s.locks.pending)], s.live)
  }

  /** Hands the lock to the front group; an assertion fails when the group holds the releasing handle. */
  function HandOver(s: Node, handle: nat, ok: bool): Option<Node>
    requires s.locks.pending != []
  {
    var pending := s.locks.pending;
    var next := NextHandles(s);
    var popped := s.(locks := s.locks.(pending := pending[FrontGroup(pending)..]));
    if next == [] then Some(popped)
    else
      var generation := s.generation + 1;
      if !ok then Some(popped.(generation := generation))
      else if handle in next then None
      else
        Some(popped.(generation := generation, stored := generation, grants := s.grants + [generation],
                     locks := GrantAll(popped.locks.(curMode := Some(pending[0].mode)), next, pending[0].mode)))
  }

  /** The lock state without one holder. */
  function Dropped(l: LockState, handle: nat): LockState {
    var rest := l.(locked := l.locked - {handle});
    if l.exclusive != 0 then rest.(exclusive := 0) else rest.(shared := rest.shared - {handle})
  }

  /** The state between giving the lock up and handing it over. */
  function Reset(g: Guard, l: LockState): LockState {
    if g.AsWritten? || l.shared == {} then l.(curMode := None) else l
  }

  /** A release; no result when an assertion of the master fails. */
  function Release(g: Guard, s: Node, handle: nat, ok: bool): Option<Node> {
    if handle !in s.locks.locked then Some(s)
    else if (if s.locks.exclusive != 0 then s.locks.exclusive != handle else handle !in s.locks.shared) then None
    else
      var free := Dropped(s.locks, handle);
      var rest := s.(locks := Reset(g, free));
      if s.locks.pending == [] || (g.Both? && free.shared != {}) then Some(rest) else HandOver(rest, handle, ok)
  }

  // ----- Runs -----

  datatype Step =
    | Opening(mode: Option<Mode>, create: bool, retries: nat, ok: bool)
    | Locking(handle: nat, lockMode: Mode, try: bool, ok: bool)
    | Releasing(handle: nat, ok: bool)
    | Unregistering(handle: nat)
    | Restarting

  /** The handle has been given out, and may since have been destroyed. */
  predicate Opened(s: Node, handle: nat) {
    1 < handle <= s.lastHandle
  }

  /** A restart of the master: everything but the database is gone. */
  function Restarted(s: Node): Node {
    Fresh.(present := s.present, stored := s.stored, grants := s.grants)
  }

  /**
   * One step; no result when an assertion fails.  Destroying a handle is two
   * steps: it is taken from the handle map, then its lock is released.
   */
  function Next(g: Guard, s: Node, step: Step): Option<Node> {
    match step
    case Opening(mode, create, retries, ok) => Some(Open(s, mode, create, retries, ok))
    case Locking(handle, mode, try, ok) =>
      if Opened(s, handle) then Some(Lock(s, handle, mode, try, ok).0) else Some(s)
    case Releasing(handle, ok) => Release(g, s, handle, ok)
    case Unregistering(handle) => Some(s.(live := s.live - {handle}))
    case Restarting => Some(Restarted(s))
  }

  function Run(g: Guard, s: Node, steps: seq<Step>): Option<Node>
    decreases |steps|
  {
    if steps == [] then Some(s)
    else match Next(g, s, steps[0])
      case None => None
      case Some(t) => Run(g, t, steps[1..])
  }
}
