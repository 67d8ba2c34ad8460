/**
 * The queue of lock requests over whole runs: in which order requests leave it,
 * which of them are lost, and when they wait for a lock that is free.
 */
module LockWaiters {
  import opened Sequences
  import opened Locks
  import opened LockSafety

  // ----- Waiters keep their order -----

  /** The request a step puts into the queue, if any. */
  function Queued(s: Node, step: Step): seq<LockRequest> {
    if step.Locking? && Opened(s, step.handle) && Lock(s, step.handle, step.lockMode, step.try, step.ok).1.Pending?
    then [LockRequest(step.handle, step.lockMode)]
    else []
  }

  function RunQueued(g: Guard, s: Node, steps: seq<Step>): seq<LockRequest>
    decreases |steps|
  {
    if steps == [] || Next(g, s, steps[0]).None? then []
    else Queued(s, steps[0]) + RunQueued(g, Next(g, s, steps[0]).value, steps[1..])
  }

  lemma StepQueue(g: Guard, s: Node, step: Step) returns (n: nat)
    requires Next(g, s, step).Some? && !step.Restarting?
    ensures n <= |s.locks.pending| && Next(g, s, step).value.locks.pending == s.locks.pending[n..] + Queued(s, step)
  {
    hide LiveHandles, HandOver, FrontGroup;
    n := 0;
    assert s.locks.pending[0..] == s.locks.pending;
    if step.Releasing? && TriesHandOver(g, s, step.handle) {
      ReleaseHolders(g, s, step.handle, step.ok);
      n := FrontGroup(s.locks.pending);
    }
  }

  lemma DropBoth<T>(p: seq<T>, q: seq<T>, r: seq<T>, n: nat, m: nat)
    requires n <= |p| && m <= |p[n..] + q + r|
    ensures n + m <= |p + (q + r)| && (p[n..] + q + r)[m..] == (p + (q + r))[n + m..]
  {
  }

  /**
   * As long as the master runs, waiters leave the queue in the order in which
   * they entered it: what waits now is the end of what waited and was queued.
   */
  lemma {:induction false} WaitersKeepOrder(g: Guard, s: Node, steps: seq<Step>) returns (n: nat)
    requires Run(g, s, steps).Some? && forall i :: 0 <= i < |steps| ==> !steps[i].Restarting?
    ensures n <= |s.locks.pending + RunQueued(g, s, steps)|
    ensures Run(g, s, steps).value.locks.pending == (s.locks.pending + RunQueued(g, s, steps))[n..]
    decreases |steps|
  {
    hide Next, Queued;
    if steps == [] {
      n := 0;
      assert (s.locks.pending + [])[0..] == s.locks.pending;
    } else {
      var t := Next(g, s, steps[0]).value;
      var first := StepQueue(g, s, steps[0]);
      var more := WaitersKeepOrder(g, t, steps[1..]);
      DropBoth(s.locks.pending, Queued(s, steps[0]), RunQueued(g, t, steps[1..]), first, more);
      n := first + more;
    }
  }

  // ----- Who leaves the queue gets the lock -----

  /** The requests that a step takes from the queue. */
  function Taken(g: Guard, s: Node, step: Step): (r: seq<LockRequest>)
    requires Next(g, s, step).Some? && !step.Restarting?
    ensures r <= s.locks.pending
  {
    var left := |s.locks.pending + Queued(s, step)| - |Next(g, s, step).value.locks.pending|;
    if 0 <= left <= |s.locks.pending| then s.locks.pending[..left] else []
  }

  /** The request is answered with a new grant in its mode. */
  predicate Answered(s: Node, t: Node, r: LockRequest) {
    && s.grants < t.grants && r.handle in t.locks.locked
    && if r.mode.Shared? then r.handle in t.locks.shared else r.handle == t.locks.exclusive
  }

  /** Every request that the step takes from the queue is granted, or its handle has been destroyed. */
  ghost predicate Serves(g: Guard, s: Node, step: Step)
    requires Next(g, s, step).Some? && !step.Restarting?
  {
    var taken := Taken(g, s, step);
    forall i :: 0 <= i < |taken| ==> taken[i].handle !in s.live || Answered(s, Next(g, s, step).value, taken[i])
  }

  /** The step releases the lock to open handles, and the database does not take the new generation. */
  ghost predicate FailsToStore(g: Guard, s: Node, step: Step) {
    step.Releasing? && TriesHandOver(g, s, step.handle) && NextHandles(s) != [] && !step.ok
  }

  /** The queue after a step is what the step has not taken, and what it has queued. */
  lemma TakenLeaves(g: Guard, s: Node, step: Step)
    requires Next(g, s, step).Some? && !step.Restarting?
    ensures Next(g, s, step).value.locks.pending == s.locks.pending[|Taken(g, s, step)|..] + Queued(s, step)
    ensures Taken(g, s, step) == if step.Releasing? && TriesHandOver(g, s, step.handle)
                                 then s.locks.pending[..FrontGroup(s.locks.pending)] else []
  {
    hide LiveHandles, HandOver, FrontGroup;
    assert s.locks.pending[0..] == s.locks.pending && s.locks.pending[..0] == [];
    if step.Releasing? && TriesHandOver(g, s, step.handle) {
      ReleaseHolders(g, s, step.handle, step.ok);
    }
  }

  /** An open handle of the front group is among the recipients. */
  lemma RecipientsAre(s: Node, i: nat)
    requires s.locks.pending != [] && i < FrontGroup(s.locks.pending) && s.locks.pending[i].handle in s.live
    ensures s.locks.pending[i].handle in NextHandles(s)
  {
    hide LiveHandles, FrontGroup;
    var group := s.locks.pending[..FrontGroup(s.locks.pending)];
    assert group[i] == s.locks.pending[i];
    LiveHandlesAre(group, s.live, s.locks.pending[i].handle);
  }

  /** A hand-over answers an open handle of the front group exactly when it is stored. */
  lemma HandOverAnswers(s: Node, handle: nat, ok: bool, i: nat)
    requires s.locks.pending != [] && HandOver(s, handle, ok).Some? && i < FrontGroup(s.locks.pending)
    requires s.locks.pending[i].handle in s.live
    ensures Answered(s, HandOver(s, handle, ok).value, s.locks.pending[i]) <==> ok
  {
    hide LiveHandles, GrantAll;
    var pending := s.locks.pending;
    RecipientsAre(s, i);
    if ok {
      HandedOver(s, s.locks.(pending := pending[FrontGroup(pending)..], curMode := Some(pending[0].mode)));
      if pending[0].mode.Exclusive? {
        NextExclusive(s);
      }
    }
  }

  lemma ReleaseAnswers(g: Guard, s: Node, handle: nat, ok: bool, i: nat)
    requires Release(g, s, handle, ok).Some? && TriesHandOver(g, s, handle)
    requires i < FrontGroup(s.locks.pending) && s.locks.pending[i].handle in s.live
    ensures Answered(s, Release(g, s, handle, ok).value, s.locks.pending[i]) <==> ok
  {
    hide HandOver, LiveHandles, FrontGroup;
    HandOverAnswers(s.(locks := Reset(g, Dropped(s.locks, handle))), handle, ok, i);
  }

  /** Some request of the front group has an open handle, when there are recipients. */
  lemma SomeRecipient(s: Node) returns (i: nat)
    requires NextHandles(s) != []
    ensures i < FrontGroup(s.locks.pending) && s.locks.pending[i].handle in s.live
  {
    hide LiveHandles, FrontGroup;
    var group := s.locks.pending[..FrontGroup(s.locks.pending)];
    LiveHandlesAre(group, s.live, NextHandles(s)[0]);
    i :| 0 <= i < |group| && group[i].handle == NextHandles(s)[0];
  }

  /** A step serves all requests that it takes exactly when it does not fail to store a hand-over to open handles. */
  lemma StepServesExactly(g: Guard, s: Node, step: Step)
    requires Next(g, s, step).Some? && !step.Restarting?
    ensures Serves(g, s, step) <==> !FailsToStore(g, s, step)
  {
    hide Release, Answered, FrontGroup, LiveHandles, Taken, NextHandles;
    TakenLeaves(g, s, step);
    if step.Releasing? && TriesHandOver(g, s, step.handle) {
      var pending, n := s.locks.pending, FrontGroup(s.locks.pending);
      forall i | 0 <= i < n && pending[i].handle in s.live
        ensures Answered(s, Next(g, s, step).value, pending[i]) <==> step.ok
        ensures NextHandles(s) != []
      {
        ReleaseAnswers(g, s, step.handle, step.ok, i);
        RecipientsAre(s, i);
      }
      if NextHandles(s) != [] {
        var i := SomeRecipient(s);
        assert Taken(g, s, step)[i] == pending[i];
      }
    }
  }

  ghost predicate ServesThroughout(g: Guard, s: Node, steps: seq<Step>)
    requires forall i :: 0 <= i < |steps| ==> !steps[i].Restarting?
    decreases |steps|
  {
    steps == [] || Next(g, s, steps[0]).None? ||
    (Serves(g, s, steps[0]) && ServesThroughout(g, Next(g, s, steps[0]).value, steps[1..]))
  }

  ghost predicate AlwaysStores(g: Guard, s: Node, steps: seq<Step>)
    decreases |steps|
  {
    steps == [] || Next(g, s, steps[0]).None? ||
    (!FailsToStore(g, s, steps[0]) && AlwaysStores(g, Next(g, s, steps[0]).value, steps[1..]))
  }

  /**
   * In every run without a restart, each request that leaves the queue is
   * granted or has a destroyed handle, exactly when every hand-over to open
   * handles is stored.  A request of a hand-over that is not stored is lost.
   */
  lemma {:induction false} ServesThroughoutExactly(g: Guard, s: Node, steps: seq<Step>)
    requires forall i :: 0 <= i < |steps| ==> !steps[i].Restarting?
    ensures ServesThroughout(g, s, steps) <==> AlwaysStores(g, s, steps)
    decreases |steps|
  {
    hide Next, Serves, FailsToStore;
    if steps != [] && Next(g, s, steps[0]).Some? {
      StepServesExactly(g, s, steps[0]);
      ServesThroughoutExactly(g, Next(g, s, steps[0]).value, steps[1..]);
    }
  }

  // ----- A free lock that somebody waits for -----

  ghost predicate Stuck(s: Node) {
    s.locks.locked == {} && HasLiveWaiter(s.locks.pending, s.live)
  }

  /** Only handles that have been given out wait. */
  ghost predicate WaitersOpened(s: Node) {
    s.lastHandle >= 1 && forall i :: 0 <= i < |s.locks.pending| ==> Opened(s, s.locks.pending[i].handle)
  }

  /**
   * The only holder releases, and the front group gets nothing, or is not tried,
   * although an open handle waits behind it; or an open handle begins to wait
   * for a lock that nobody holds, because the mode says otherwise.
   */
  ghost predicate Sticks(g: Guard, s: Node, step: Step) {
    match step
    case Releasing(handle, ok) =>
      s.locks.locked == {handle} &&
      if TriesHandOver(g, s, handle)
      then (NextHandles(s) == [] || !ok) && HasLiveWaiter(s.locks.pending[FrontGroup(s.locks.pending)..], s.live)
      else HasLiveWaiter(s.locks.pending, s.live)
    case Locking(handle, mode, try, _) =>
      s.locks.locked == {} && Opened(s, handle) && handle in s.live && MustWait(s.locks, mode) && !try
    case _ => false
  }

  lemma ReleaseSticksExactly(g: Guard, s: Node, handle: nat, ok: bool)
    requires !Stuck(s) && Release(g, s, handle, ok).Some?
    ensures Stuck(Release(g, s, handle, ok).value) <==> Sticks(g, s, Releasing(handle, ok))
  {
    hide HandOver, LiveHandles, FrontGroup, NextHandles;
    if TriesHandOver(g, s, handle) {
      ReleaseHolders(g, s, handle, ok);
      var t := Release(g, s, handle, ok).value;
      if NextHandles(s) != [] && ok {
        assert NextHandles(s)[0] in (set h | h in NextHandles(s));
        assert NextHandles(s)[0] in t.locks.locked;
      } else {
        assert t.locks.locked == s.locks.locked - {handle};
      }
    }
  }

  lemma LockSticksExactly(s: Node, handle: nat, mode: Mode, try: bool, ok: bool)
    requires !Stuck(s)
    ensures Stuck(Lock(s, handle, mode, try, ok).0) <==>
            s.locks.locked == {} && handle in s.live && MustWait(s.locks, mode) && !try
  {
    var t := Lock(s, handle, mode, try, ok).0;
    if MustWait(s.locks, mode) && !try {
      var p := s.locks.pending;
      assert t.locks.pending[|p|].handle == handle;
      assert forall i :: 0 <= i < |p| ==> t.locks.pending[i] == p[i];
    } else if !MustWait(s.locks, mode) && ok {
      assert handle in t.locks.locked;
    }
  }

  lemma OpenNeverSticks(s: Node, mode: Option<Mode>, create: bool, retries: nat, ok: bool)
    requires !Stuck(s) && WaitersOpened(s)
    ensures !Stuck(Open(s, mode, create, retries, ok))
  {
    var t := Open(s, mode, create, retries, ok);
    if t.locks.locked != s.locks.locked {
      assert s.lastHandle + 1 in t.locks.locked;
    }
  }

  lemma StepWaitersOpened(g: Guard, s: Node, step: Step)
    requires WaitersOpened(s) && Next(g, s, step).Some?
    ensures WaitersOpened(Next(g, s, step).value)
  {
    hide Release, LiveHandles, FrontGroup;
    var t := Next(g, s, step).value;
    if step.Releasing? {
      ReleaseKeepsLast(g, s, step.handle, step.ok);
    }
    if !step.Restarting? {
      var n := StepQueue(g, s, step);
    }
  }

  lemma ReleaseKeepsLast(g: Guard, s: Node, handle: nat, ok: bool)
    requires Release(g, s, handle, ok).Some?
    ensures Release(g, s, handle, ok).value.lastHandle == s.lastHandle
  {
  }

  /** A step leaves the lock free beside an open waiter exactly when it is one of those that stick. */
  lemma StepSticksExactly(g: Guard, s: Node, step: Step)
    requires !Stuck(s) && WaitersOpened(s) && Next(g, s, step).Some?
    ensures Stuck(Next(g, s, step).value) <==> Sticks(g, s, step)
  {
    hide Release, FrontGroup, LiveHandles, NextHandles, TriesHandOver;
    match step {
      case Opening(mode, create, retries, ok) => OpenNeverSticks(s, mode, create, retries, ok);
      case Locking(handle, mode, try, ok) => LockSticksExactly(s, handle, mode, try, ok);
      case Releasing(handle, ok) => ReleaseSticksExactly(g, s, handle, ok);
      case Unregistering(handle) =>
      case Restarting =>
    }
  }

  ghost predicate NeverStuck(g: Guard, s: Node, steps: seq<Step>)
    decreases |steps|
  {
    !Stuck(s) &&
    (steps == [] || Next(g, s, steps[0]).None? || NeverStuck(g, Next(g, s, steps[0]).value, steps[1..]))
  }

  ghost predicate NoStepSticks(g: Guard, s: Node, steps: seq<Step>)
    decreases |steps|
  {
    steps == [] || Next(g, s, steps[0]).None? ||
    (!Sticks(g, s, steps[0]) && NoStepSticks(g, Next(g, s, steps[0]).value, steps[1..]))
  }

  /** Throughout a run no open handle waits for a free lock exactly when no step of the run sticks. */
  lemma {:induction false} NeverStuckExactly(g: Guard, s: Node, steps: seq<Step>)
    requires !Stuck(s) && WaitersOpened(s)
    ensures NeverStuck(g, s, steps) <==> NoStepSticks(g, s, steps)
    decreases |steps|
  {
    hide Next, Stuck, Sticks, WaitersOpened;
    if steps != [] && Next(g, s, steps[0]).Some? {
      var t := Next(g, s, steps[0]).value;
      StepSticksExactly(g, s, steps[0]);
      StepWaitersOpened(g, s, steps[0]);
      if !Stuck(t) {
        NeverStuckExactly(g, t, steps[1..]);
      }
    }
  }
}
