/** Runs of a fresh node in which an intent of the lock service fails. */
module LockExamples {
  import opened Sequences
  import opened Locks
  import opened LockSafety

  /** A run with one more step. */
  lemma {:induction false} Extend(g: Guard, s: Node, steps: seq<Step>, t: Node, step: Step)
    requires Run(g, s, steps) == Some(t)
    ensures Run(g, s, steps + [step]) == Next(g, t, step)
    decreases |steps|
  {
    hide Next;
    if steps == [] {
      assert [] + [step] == [step] && [step][1..] == [];
      assert Run(g, s, [step]) == match Next(g, s, step) case None => None case Some(u) => Run(g, u, []);
    } else {
      assert (steps + [step])[0] == steps[0] && (steps + [step])[1..] == steps[1..] + [step];
      Extend(g, Next(g, s, steps[0]).value, steps[1..], t, step);
    }
  }

  /** Collections with one more element, as the steps below build them. */
  lemma Built()
    ensures var none: set<nat> := {}; none + {2} == {2} && {2} + {3} == {2, 3} && {2, 3} + {4} == {2, 3, 4}
    ensures var none: seq<nat> := []; none + [2] == [2] && [2] + [3] == [2, 3]
    ensures var none: set<nat> := {}; none + {4} == {4}
  {
  }

  function OpenShared(): Step { Opening(Some(Shared), true, 0, true) }
  function OpenExclusive(): Step { Opening(Some(Exclusive), true, 0, true) }
  function OpenOnly(): Step { Opening(None, true, 0, true) }

  // ----- A shared holder is overlooked -----

  /** Handles 2 and 3 share the lock; handle 4 is open. */
  function SharedByTwo(pending: seq<LockRequest>): Node {
    Node(LockState(Some(Shared), 0, {2, 3}, {2, 3}, pending), {2, 3, 4}, 4, 3, true, 3, [2, 3])
  }

  lemma SharedByTwoReached(g: Guard)
    ensures Run(g, Fresh, [OpenShared(), OpenShared(), OpenOnly()]) == Some(SharedByTwo([]))
  {
    hide Run;
    Built();
    var one := Node(LockState(Some(Shared), 0, {2}, {2}, []), {2}, 2, 2, true, 2, [2]);
    var two := Node(LockState(Some(Shared), 0, {2, 3}, {2, 3}, []), {2, 3}, 3, 3, true, 3, [2, 3]);
    RunNone(g);
    Extend(g, Fresh, [], Fresh, OpenShared());
    assert Next(g, Fresh, OpenShared()) == Some(one);
    assert [] + [OpenShared()] == [OpenShared()];
    Extend(g, Fresh, [OpenShared()], one, OpenShared());
    assert Next(g, one, OpenShared()) == Some(two);
    assert [OpenShared()] + [OpenShared()] == [OpenShared(), OpenShared()];
    Extend(g, Fresh, [OpenShared(), OpenShared()], two, OpenOnly());
    assert Next(g, two, OpenOnly()) == Some(SharedByTwo([]));
    assert [OpenShared(), OpenShared()] + [OpenOnly()] == [OpenShared(), OpenShared(), OpenOnly()];
  }

  lemma RunNone(g: Guard)
    ensures Run(g, Fresh, []) == Some(Fresh)
  {
  }

  /** As written, one of two shared holders releases, and the other is overlooked by an exclusive request. */
  lemma AsWrittenOverlooksSharedHolder()
    ensures var t := Run(AsWritten, Fresh, [OpenShared(), OpenShared(), OpenOnly()] + [Releasing(2, true)] +
                                           [Locking(4, Exclusive, true, true)]);
            t.Some? && t.value.locks.exclusive == 4 && t.value.locks.shared == {3} && {3, 4} <= t.value.locks.locked
  {
    hide Run;
    var steps := [OpenShared(), OpenShared(), OpenOnly()];
    SharedByTwoReached(AsWritten);
    Extend(AsWritten, Fresh, steps, SharedByTwo([]), Releasing(2, true));
    var s := Next(AsWritten, SharedByTwo([]), Releasing(2, true)).value;
    assert s.locks == LockState(None, 0, {3}, {3}, []);
    Extend(AsWritten, Fresh, steps + [Releasing(2, true)], s, Locking(4, Exclusive, true, true));
  }

  /** As written, the overlooked shared holder then releases, and fails the assertion that it is the exclusive one. */
  lemma OverlookedHolderAborts()
    ensures Run(AsWritten, Fresh, [OpenShared(), OpenShared(), OpenOnly()] + [Releasing(2, true)] +
                                  [Locking(4, Exclusive, true, true)] + [Releasing(3, true)]).None?
  {
    hide Run;
    var steps := [OpenShared(), OpenShared(), OpenOnly()] + [Releasing(2, true)] + [Locking(4, Exclusive, true, true)];
    AsWrittenOverlooksSharedHolder();
    var s := Run(AsWritten, Fresh, steps).value;
    Extend(AsWritten, Fresh, steps, s, Releasing(3, true));
    assert 3 in s.locks.locked;
    ReleaseAbortsExactly(AsWritten, s, 3, true);
  }

  /** With the reset alone guarded, the hand-over still goes to an exclusive request next to a shared holder. */
  lemma ResetAloneIsNotEnough()
    ensures var t := Run(ResetOnly, Fresh, [OpenShared(), OpenShared(), OpenOnly()] +
                                           [Locking(4, Exclusive, false, true)] + [Releasing(2, true)]);
            t.Some? && t.value.locks.exclusive == 4 && t.value.locks.shared == {3}
  {
    hide Run;
    var steps := [OpenShared(), OpenShared(), OpenOnly()];
    var s := SharedByTwo([LockRequest(4, Exclusive)]);
    SharedByTwoReached(ResetOnly);
    Extend(ResetOnly, Fresh, steps, SharedByTwo([]), Locking(4, Exclusive, false, true));
    assert [] + [LockRequest(4, Exclusive)] == [LockRequest(4, Exclusive)];
    assert Next(ResetOnly, SharedByTwo([]), Locking(4, Exclusive, false, true)) == Some(s);
    Extend(ResetOnly, Fresh, steps + [Locking(4, Exclusive, false, true)], s, Releasing(2, true));
    var rest := s.(locks := Reset(ResetOnly, Dropped(s.locks, 2)));
    NextExclusive(rest);
    HandedOver(rest, rest.locks.(pending := [], curMode := Some(Exclusive)));
    assert s.locks.shared - {2} == {3};
    assert s.locks.pending[1..] == [];
  }

  // ----- A handle waits for itself -----

  /** Handle 2 holds the lock exclusively. */
  function HeldByOne(pending: seq<LockRequest>, live: set<nat>, last: nat): Node {
    Node(LockState(Some(Exclusive), 2, {}, {2}, pending), live, last, 2, true, 2, [2])
  }

  lemma HeldByOneReached(g: Guard)
    ensures Run(g, Fresh, [OpenExclusive()]) == Some(HeldByOne([], {2}, 2))
  {
    hide Run;
    Built();
    RunNone(g);
    Extend(g, Fresh, [], Fresh, OpenExclusive());
    assert [] + [OpenExclusive()] == [OpenExclusive()];
  }

  /** A handle asks for the lock that it holds, waits, and fails the assertion when it releases. */
  lemma ReleaseByWaiterAborts(g: Guard)
    ensures Run(g, Fresh, [OpenExclusive()] + [Locking(2, Exclusive, false, true)]).Some?
    ensures Run(g, Fresh, [OpenExclusive()] + [Locking(2, Exclusive, false, true)] + [Releasing(2, true)]).None?
  {
    hide Run;
    Built();
    var s := HeldByOne([LockRequest(2, Exclusive)], {2}, 2);
    HeldByOneReached(g);
    Extend(g, Fresh, [OpenExclusive()], HeldByOne([], {2}, 2), Locking(2, Exclusive, false, true));
    assert [] + [LockRequest(2, Exclusive)] == [LockRequest(2, Exclusive)];
    Extend(g, Fresh, [OpenExclusive()] + [Locking(2, Exclusive, false, true)], s, Releasing(2, true));
    NextExclusive(s);
    ReleaseAbortsExactly(g, s, 2, true);
  }

  // ----- A lock that stays free -----

  /** Handle 2 holds the lock; handles 3 and 4 wait for it. */
  function TwoWaiters(live: set<nat>): Node {
    HeldByOne([LockRequest(3, Exclusive), LockRequest(4, Exclusive)], live, 4)
  }

  lemma TwoWait(g: Guard) returns (steps: seq<Step>)
    ensures Run(g, Fresh, steps) == Some(TwoWaiters({2, 3, 4}))
  {
    hide Run;
    Built();
    var s0, s1, s2 := HeldByOne([], {2}, 2), HeldByOne([], {2, 3}, 3), HeldByOne([], {2, 3, 4}, 4);
    var s3, s4 := HeldByOne([LockRequest(3, Exclusive)], {2, 3, 4}, 4), TwoWaiters({2, 3, 4});
    HeldByOneReached(g);
    steps := [OpenExclusive()];
    Extend(g, Fresh, steps, s0, OpenOnly());
    assert Next(g, s0, OpenOnly()) == Some(s1);
    steps := steps + [OpenOnly()];
    Extend(g, Fresh, steps, s1, OpenOnly());
    assert Next(g, s1, OpenOnly()) == Some(s2);
    steps := steps + [OpenOnly()];
    Extend(g, Fresh, steps, s2, Locking(3, Exclusive, false, true));
    assert [] + [LockRequest(3, Exclusive)] == [LockRequest(3, Exclusive)];
    assert Next(g, s2, Locking(3, Exclusive, false, true)) == Some(s3);
    steps := steps + [Locking(3, Exclusive, false, true)];
    Extend(g, Fresh, steps, s3, Locking(4, Exclusive, false, true));
    assert s3.locks.pending + [LockRequest(4, Exclusive)] == s4.locks.pending;
    assert Next(g, s3, Locking(4, Exclusive, false, true)) == Some(s4);
    steps := steps + [Locking(4, Exclusive, false, true)];
  }

  /** The holder releases, and the front waiter gets nothing: the lock is free, handle 4 is open, and it waits on. */
  lemma LeftFree(g: Guard, steps: seq<Step>, live: set<nat>, ok: bool) returns (t: Node)
    requires Run(g, Fresh, steps) == Some(TwoWaiters(live)) && 4 in live && (3 !in live || !ok)
    ensures Run(g, Fresh, steps + [Releasing(2, ok)]) == Some(t)
    ensures t.locks.locked == {} && HasLiveWaiter(t.locks.pending, t.live)
  {
    hide Run;
    var s := TwoWaiters(live);
    Extend(g, Fresh, steps, s, Releasing(2, ok));
    NextExclusive(s);
    ReleaseAbortsExactly(g, s, 2, ok);
    t := Next(g, s, Releasing(2, ok)).value;
    var rest := s.locks.pending[FrontGroup(s.locks.pending)..];
    assert rest[0].handle in s.live;
    StuckExactly(g, s, 2, ok);
  }

  /** The front waiter is destroyed before the holder releases. */
  lemma FreeLockWithWaiter(g: Guard) returns (steps: seq<Step>, t: Node)
    ensures Run(g, Fresh, steps + [Unregistering(3)] + [Releasing(2, true)]) == Some(t)
    ensures t.locks.locked == {} && HasLiveWaiter(t.locks.pending, t.live)
  {
    hide Run;
    steps := TwoWait(g);
    Extend(g, Fresh, steps, TwoWaiters({2, 3, 4}), Unregistering(3));
    assert {2, 3, 4} - {3} == {2, 4};
    t := LeftFree(g, steps + [Unregistering(3)], {2, 4}, true);
  }

  /** All handles are open, and the database refuses the generation of the front waiter. */
  lemma FreeLockAfterFailure(g: Guard) returns (steps: seq<Step>, t: Node)
    ensures Run(g, Fresh, steps + [Releasing(2, false)]) == Some(t) && {2, 3, 4} <= t.live
    ensures t.locks.locked == {} && HasLiveWaiter(t.locks.pending, t.live)
  {
    hide Run;
    steps := TwoWait(g);
    t := LeftFree(g, steps, {2, 3, 4}, false);
    Extend(g, Fresh, steps, TwoWaiters({2, 3, 4}), Releasing(2, false));
    ReleaseHolders(g, TwoWaiters({2, 3, 4}), 2, false);
  }

  // ----- A request that is lost -----

  /** Handle 3 waits, 2 releases, the database refuses the generation: 3 is open, waits no more and has no lock. */
  lemma LostRequest(g: Guard)
    ensures var t := Run(g, Fresh, [OpenExclusive()] + [OpenOnly()] + [Locking(3, Exclusive, false, true)]);
            t.Some? && t.value.locks.pending == [LockRequest(3, Exclusive)]
    ensures var t := Run(g, Fresh, [OpenExclusive()] + [OpenOnly()] + [Locking(3, Exclusive, false, true)] +
                                   [Releasing(2, false)]);
            t.Some? && t.value.locks.locked == {} && t.value.locks.pending == [] && 3 in t.value.live &&
            t.value.grants == [2]
  {
    hide Run;
    Built();
    var s0, s1 := HeldByOne([], {2}, 2), HeldByOne([], {2, 3}, 3);
    var s2 := HeldByOne([LockRequest(3, Exclusive)], {2, 3}, 3);
    HeldByOneReached(g);
    Extend(g, Fresh, [OpenExclusive()], s0, OpenOnly());
    assert Next(g, s0, OpenOnly()) == Some(s1);
    var steps := [OpenExclusive()] + [OpenOnly()];
    Extend(g, Fresh, steps, s1, Locking(3, Exclusive, false, true));
    assert [] + [LockRequest(3, Exclusive)] == [LockRequest(3, Exclusive)];
    assert Next(g, s1, Locking(3, Exclusive, false, true)) == Some(s2);
    steps := steps + [Locking(3, Exclusive, false, true)];
    Extend(g, Fresh, steps, s2, Releasing(2, false));
    ReleaseAbortsExactly(g, s2, 2, false);
    ReleaseHolders(g, s2, 2, false);
    assert {2} - {2} == {};
  }

  // ----- A destroyed handle that holds the lock -----

  /** Handle 2 asks for the lock, is destroyed before the master takes the node's mutex, and is granted the lock. */
  lemma OvertakenRequestHolds(g: Guard)
    ensures var t := Run(g, Fresh, [OpenOnly()] + [Unregistering(2)] + [Releasing(2, true)] +
                                   [Locking(2, Exclusive, false, true)]);
            t.Some? && t.value.locks.exclusive == 2 && t.value.live == {}
  {
    hide Run;
    Built();
    var s := Node(Unlocked, {2}, 2, 1, true, 1, []);
    var gone := s.(live := {});
    RunNone(g);
    Extend(g, Fresh, [], Fresh, OpenOnly());
    assert [] + [OpenOnly()] == [OpenOnly()];
    assert Next(g, Fresh, OpenOnly()) == Some(s);
    Extend(g, Fresh, [OpenOnly()], s, Unregistering(2));
    assert {2} - {2} == {};
    assert Next(g, s, Unregistering(2)) == Some(gone);
    Extend(g, Fresh, [OpenOnly()] + [Unregistering(2)], gone, Releasing(2, true));
    var steps := [OpenOnly()] + [Unregistering(2)] + [Releasing(2, true)];
    Extend(g, Fresh, steps, gone, Locking(2, Exclusive, false, true));
  }
}
