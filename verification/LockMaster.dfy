/**
 * The operations of the master on the locks of a node, in the order in which
 * they update its fields; each is the step of the lock model.
 */
module LockMaster {
  import opened Sequences
  import opened Locks

  class NodeData {
    var curMode: Option<Mode>
    var exclusive: nat
    var shared: set<nat>
    var locked: set<nat>
    var pending: seq<LockRequest>
    var live: set<nat>
    var lastHandle: nat
    var generation: nat
    var present: bool
    var stored: nat
    var grants: seq<nat>

    function State(): Node
      reads this
    {
      Node(LockState(curMode, exclusive, shared, locked, pending),
           live, lastHandle, generation, present, stored, grants)
    }

    constructor ()
      ensures State() == Fresh
    {
      curMode, exclusive, shared, locked, pending := None, 0, {}, {}, [];
      live, lastHandle, generation, present, stored, grants := {}, 1, 0, false, 0, [];
    }

    /** Marks a handle as a holder. */
    method LockHandle(handle: nat, mode: Mode)
      modifies this
      ensures State() == old(State()).(locks := Grant(old(State()).locks, handle, mode))
    {
      if mode.Shared? {
        shared := shared + {handle};
      } else {
        exclusive := handle;
      }
      locked := locked + {handle};
    }

    /** Raises the generation and stores it, if the database takes it. */
    method StoreGeneration(ok: bool)
      modifies this
      ensures State() == old(State()).(generation := old(generation) + 1,
                                       stored := if ok then old(generation) + 1 else old(stored))
    {
      generation := generation + 1;
      if ok {
        stored := generation;
      }
    }

    method Enqueue(handle: nat, mode: Mode, try: bool) returns (reply: Reply)
      modifies this
      ensures reply == if try then Busy else Pending
      ensures State() == if try then old(State())
                         else old(State()).(locks := old(State()).locks.(
                                              pending := old(pending) + [LockRequest(handle, mode)]))
    {
      if try {
        return Busy;
      }
      pending := pending + [LockRequest(handle, mode)];
      return Pending;
    }

    /** Answers a request for the lock. */
    method Lock(handle: nat, mode: Mode, try: bool, ok: bool) returns (reply: Reply)
      modifies this
      ensures (State(), reply) == Locks.Lock(old(State()), handle, mode, try, ok)
    {
      if curMode == Some(Exclusive) {
        reply := Enqueue(handle, mode, try);
        return;
      } else if curMode == Some(Shared) {
        if mode.Exclusive? {
          reply := Enqueue(handle, mode, try);
          return;
        }
        if pending != [] {
          reply := Enqueue(handle, mode, try);
          return;
        }
      }
      StoreGeneration(ok);
      if !ok {
        return Failed;
      }
      curMode := Some(mode);
      LockHandle(handle, mode);
      grants := grants + [generation];
      return Granted(generation);
    }

    /** Reads the generation of an existing node, or starts it; returns whether it has to be stored. */
    method ReadGeneration() returns (started: bool)
      modifies this`generation
      ensures generation == (if old(generation) != 0 then old(generation) else if stored != 0 then stored else 1)
      ensures started == (old(generation) == 0 && stored == 0)
    {
      started := false;
      if generation == 0 {
        if stored != 0 {
          generation := stored;
        } else {
          generation, started := 1, true;
        }
      }
    }

    /** The attempts at an open that end in a database deadlock. */
    method FailedAttempts(mode: Option<Mode>, retries: nat)
      requires present
      modifies this`generation
      ensures State() == old(State()).(generation :=
                if retries == 0 then old(generation)
                else OpenedGeneration(old(State())) + (if mode.None? then 0 else retries))
    {
      for i := 0 to retries
        invariant State() == old(State()).(generation :=
                    if i == 0 then old(generation)
                    else OpenedGeneration(old(State())) + (if mode.None? then 0 else i))
      {
        var started := ReadGeneration();
        if mode.Some? {
          generation := generation + 1;
        }
      }
    }

    /** Brings the generation to what the last attempt at an open leaves; returns whether it was started there. */
    method ReachGeneration(mode: Option<Mode>, retries: nat) returns (started: bool)
      modifies this`generation
      ensures State() == old(State()).(generation :=
                OpenedGeneration(old(State())) + (if mode.None? then 0 else if present then retries + 1 else 1))
      ensures started == (!present || (retries == 0 && old(generation) == 0 && stored == 0))
    {
      if present {
        FailedAttempts(mode, retries);
        started := ReadGeneration();
      } else {
        generation, started := 1, true;
      }
      if mode.Some? {
        generation := generation + 1;
      }
    }

    /** Registers a new handle, with the lock if asked for. */
    method CreateHandle(mode: Option<Mode>)
      modifies this
      ensures var s := old(State());
              var open := s.(present := true, live := s.live + {s.lastHandle + 1}, lastHandle := s.lastHandle + 1);
              State() == if mode.None? then open
                         else open.(grants := s.grants + [s.generation],
                                    locks := Grant(s.locks.(curMode := mode), s.lastHandle + 1, mode.value))
    {
      lastHandle := lastHandle + 1;
      present, live := true, live + {lastHandle};
      if mode.Some? {
        curMode := mode;
        LockHandle(lastHandle, mode.value);
        grants := grants + [generation];
      }
    }

    /**
     * Opens a handle, with the lock if asked for.  Unless the open is refused or
     * fails, the answer is its number, and the generation if the lock was asked for.
     */
    method Open(mode: Option<Mode>, create: bool, retries: nat, ok: bool)
      returns (handle: Option<nat>, lockGeneration: nat)
      modifies this
      ensures State() == Locks.Open(old(State()), mode, create, retries, ok)
      ensures handle == if lastHandle == old(lastHandle) then None else Some(lastHandle)
      ensures grants == if lockGeneration == 0 then old(grants) else old(grants) + [lockGeneration]
      ensures lockGeneration != 0 <==> handle.Some? && mode.Some?
    {
      if mode == Some(Shared) && exclusive != 0 {
        return None, 0;
      }
      if mode == Some(Exclusive) && (exclusive != 0 || shared != {}) {
        return None, 0;
      }
      if !present && !create {
        return None, 0;
      }
      var started := ReachGeneration(mode, retries);
      if !ok {
        return None, 0;
      }
      if started || mode.Some? {
        stored := generation;
      }
      CreateHandle(mode);
      return Some(lastHandle), if mode.Some? then generation else 0;
    }

    /** Takes the shared requests at the front from the queue and collects their open handles. */
    method TakeShared() returns (next: seq<nat>)
      requires pending != [] && pending[0].mode.Shared?
      modifies this`pending
      ensures next == LiveHandles(old(pending)[..SharedPrefix(old(pending))], live)
      ensures pending == old(pending)[SharedPrefix(old(pending))..]
    {
      next := [];
      ghost var k := 0;
      while pending != [] && pending[0].mode.Shared?
        invariant 0 <= k <= |old(pending)| && pending == old(pending)[k..]
        invariant SharedPrefix(old(pending)) == k + SharedPrefix(pending)
        invariant next == LiveHandles(old(pending)[..k], live)
        decreases |pending|
      {
        LiveHandlesSnoc(old(pending)[..k], pending[0], live);
        assert old(pending)[..k] + [pending[0]] == old(pending)[..k + 1];
        if pending[0].handle in live {
          next := next + [pending[0].handle];
        }
        pending := pending[1..];
        k := k + 1;
      }
    }

    /** Takes the front group from the queue and collects its open handles. */
    method TakeFront() returns (next: seq<nat>, mode: Mode)
      requires pending != []
      modifies this`pending
      ensures mode == old(pending)[0].mode && next == NextHandles(old(State()))
      ensures pending == old(pending)[FrontGroup(old(pending))..]
    {
      mode := pending[0].mode;
      if mode.Exclusive? {
        next := if pending[0].handle in live then [pending[0].handle] else [];
        LiveHandlesSnoc([], pending[0], live);
        assert pending[..1] == [] + [pending[0]];
        pending := pending[1..];
      } else {
        next := TakeShared();
      }
    }

    /** Marks all handles of a group as holders; stops when it meets the handle that gave the lock up. */
    method LockGroup(next: seq<nat>, mode: Mode, own: nat) returns (asserted: bool)
      modifies this
      ensures asserted == (own in next)
      ensures !asserted ==> State() == old(State()).(locks := GrantAll(old(State()).locks, next, mode))
    {
      for i := 0 to |next|
        invariant own !in next[..i]
        invariant GrantAll(State().locks, next[i..], mode) == GrantAll(old(State()).locks, next, mode)
        invariant State() == old(State()).(locks := State().locks)
      {
        if next[i] == own {
          return true;
        }
        assert next[i..][1..] == next[i + 1..];
        LockHandle(next[i], mode);
      }
      return false;
    }

    /** Hands the lock over to the front group. */
    method PassOn(handle: nat, ok: bool) returns (asserted: bool)
      requires pending != []
      modifies this
      ensures HandOver(old(State()), handle, ok) == if asserted then None else Some(State())
    {
      var next, mode := TakeFront();
      if next == [] {
        return false;
      }
      StoreGeneration(ok);
      if !ok {
        return false;
      }
      curMode := Some(mode);
      grants := grants + [generation];
      asserted := LockGroup(next, mode, handle);
    }

    /** Gives the lock of a handle up, as written. */
    method ReleaseLock(handle: nat, ok: bool) returns (asserted: bool)
      modifies this
      ensures Release(AsWritten, old(State()), handle, ok) == if asserted then None else Some(State())
    {
      hide HandOver;
      if handle !in locked {
        return false;
      }
      if exclusive != 0 {
        if handle != exclusive {
          return true;
        }
        exclusive := 0;
      } else {
        if handle !in shared {
          return true;
        }
        shared := shared - {handle};
      }
      locked := locked - {handle};
      curMode := None;
      asserted := false;
      if pending != [] {
        asserted := PassOn(handle, ok);
      }
    }
  }

  lemma {:induction false} LiveHandlesSnoc(requests: seq<LockRequest>, r: LockRequest, live: set<nat>)
    ensures LiveHandles(requests + [r], live) ==
            LiveHandles(requests, live) + (if r.handle in live then [r.handle] else [])
  {
    if requests == [] {
      assert [r][1..] == [];
    } else {
      assert (requests + [r])[1..] == requests[1..] + [r];
      LiveHandlesSnoc(requests[1..], r, live);
    }
  }
}
