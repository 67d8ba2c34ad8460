/**
 * Mutual exclusion: when the lock mode, the holders and the flags of the
 * handles agree, for which form of the release they stay in agreement, when
 * the master fails an assertion, and who gets the lock in a hand-over.
 */
module LockSafety {
  import opened Sequences
  import opened Locks

  /** Mode, holders and flags agree, and an exclusive holder is alone. */
  ghost predicate Agree(l: LockState) {
    && (l.curMode == Some(Exclusive) <==> l.exclusive != 0)
    && (l.curMode == Some(Shared) <==> l.shared != {})
    && l.locked == (if l.exclusive != 0 then {l.exclusive} else l.shared)
    && (l.exclusive != 0 ==> l.shared == {})
  }

  /** Handle numbers in use are positive. */
  ghost predicate Numbered(s: Node) {
    && s.lastHandle >= 1 && 0 !in s.live
    && (forall i :: 0 <= i < |s.locks.pending| ==> s.locks.pending[i].handle != 0)
  }

  // ----- Granting to a group -----

  lemma {:induction false} GrantAllShared(l: LockState, handles: seq<nat>)
    ensures var all := set h | h in handles;
            GrantAll(l, handles, Shared) == l.(shared := l.shared + all, locked := l.locked + all)
    decreases |handles|
  {
    if handles != [] {
      GrantAllShared(Grant(l, handles[0], Shared), handles[1..]);
      var rest, all := set h | h in handles[1..], set h | h in handles;
      assert all == {handles[0]} + rest;
      assert l.shared + all == l.shared + {handles[0]} + rest;
      assert l.locked + all == l.locked + {handles[0]} + rest;
    }
  }

  lemma {:induction false} LiveHandlesAre(requests: seq<LockRequest>, live: set<nat>, h: nat)
    ensures h in LiveHandles(requests, live) <==>
            h in live && exists i :: 0 <= i < |requests| && requests[i].handle == h
  {
    if requests != [] {
      LiveHandlesAre(requests[1..], live, h);
      if exists i :: 0 <= i < |requests| && requests[i].handle == h {
        var i :| 0 <= i < |requests| && requests[i].handle == h;
        assert i > 0 ==> requests[1..][i - 1] == requests[i];
      }
      if exists i :: 0 <= i < |requests[1..]| && requests[1..][i].handle == h {
        var i :| 0 <= i < |requests[1..]| && requests[1..][i].handle == h;
        assert requests[i + 1].handle == h;
      }
    }
  }

  lemma LiveHandlesLive(requests: seq<LockRequest>, live: set<nat>)
    ensures forall h :: h in LiveHandles(requests, live) ==> h in live
    ensures |LiveHandles(requests, live)| <= |requests|
  {
  }

  /** An exclusive hand-over has one recipient. */
  lemma NextExclusive(s: Node)
    requires s.locks.pending != [] && s.locks.pending[0].mode.Exclusive?
    ensures NextHandles(s) == if s.locks.pending[0].handle in s.live then [s.locks.pending[0].handle] else []
  {
    var front := s.locks.pending[..1];
    assert front[0] == s.locks.pending[0] && front[1..] == [];
    assert LiveHandles(front[1..], s.live) == [];
    assert [front[0].handle] + [] == [front[0].handle];
  }

  /** What a hand-over to a group makes of the lock. */
  lemma HandedOver(s: Node, l: LockState)
    requires s.locks.pending != [] && NextHandles(s) != []
    ensures var next, mode := NextHandles(s), s.locks.pending[0].mode;
            var all := set h | h in next;
            GrantAll(l, next, mode) == if mode.Shared? then l.(shared := l.shared + all, locked := l.locked + all)
                                       else l.(exclusive := next[0], locked := l.locked + {next[0]})
  {
    if s.locks.pending[0].mode.Shared? {
      GrantAllShared(l, NextHandles(s));
    } else {
      NextExclusive(s);
      assert NextHandles(s)[1..] == [];
    }
  }

  // ----- Every step but a release keeps the agreement -----

  lemma GrantAgrees(l: LockState, handle: nat, mode: Mode)
    requires Agree(l) && handle != 0 && l.exclusive == 0 && (mode.Exclusive? ==> l.shared == {})
    ensures Agree(Grant(l.(curMode := Some(mode)), handle, mode))
  {
  }

  lemma LockAgrees(s: Node, handle: nat, mode: Mode, try: bool, ok: bool)
    requires Agree(s.locks) && Numbered(s) && handle != 0
    ensures Agree(Lock(s, handle, mode, try, ok).0.locks) && Numbered(Lock(s, handle, mode, try, ok).0)
  {
    if !MustWait(s.locks, mode) {
      GrantAgrees(s.locks, handle, mode);
    }
  }

  lemma OpenAgrees(s: Node, mode: Option<Mode>, create: bool, retries: nat, ok: bool)
    requires Agree(s.locks) && Numbered(s)
    ensures Agree(Open(s, mode, create, retries, ok).locks) && Numbered(Open(s, mode, create, retries, ok))
  {
    if !Conflict(s.locks, mode) && mode.Some? {
      GrantAgrees(s.locks, s.lastHandle + 1, mode.value);
    }
  }

  /**
   * A request is granted at once exactly when the database takes the generation
   * and nobody holds the lock, or it joins shared holders for whom nobody waits.
   */
  lemma GrantedExactly(s: Node, handle: nat, mode: Mode, try: bool, ok: bool)
    requires Agree(s.locks)
    ensures Lock(s, handle, mode, try, ok).1.Granted? <==>
            ok && (s.locks.locked == {} || (mode.Shared? && s.locks.exclusive == 0 && s.locks.pending == []))
  {
    if s.locks.locked != {} {
      assert s.locks.curMode.Some?;
    }
  }

  // ----- When a release keeps it -----

  /** The shared holders that are left when a handle has released. */
  function Remaining(l: LockState, handle: nat): set<nat> {
    if l.exclusive != 0 then l.shared else l.shared - {handle}
  }

  /** The release goes on to hand the lock over. */
  ghost predicate HandsOver(s: Node, ok: bool) {
    NextHandles(s) != [] && ok
  }

  /**
   * When a release keeps the agreement.  With shared holders left, the code as
   * written forgets them unless it adds further shared holders, and resetting
   * the mode alone at the right time still hands an exclusive lock over.
   */
  ghost predicate ReleaseIsSafe(g: Guard, s: Node, handle: nat, ok: bool) {
    handle !in s.locks.locked || Remaining(s.locks, handle) == {} ||
    match g
    case AsWritten => HandsOver(s, ok) && s.locks.pending[0].mode.Shared?
    case ResetOnly => HandsOver(s, ok) ==> s.locks.pending[0].mode.Shared?
    case Both => true
  }

  lemma HandOverAgrees(s: Node, handle: nat, ok: bool)
    requires s.locks.pending != [] && Numbered(s) && HandOver(s, handle, ok).Some?
    requires s.locks.exclusive == 0 && s.locks.locked == s.locks.shared
    requires s.locks.curMode == None || (s.locks.curMode == Some(Shared) && s.locks.shared != {})
    ensures Agree(HandOver(s, handle, ok).value.locks) <==>
            if HandsOver(s, ok) then s.locks.pending[0].mode.Shared? || s.locks.shared == {}
            else s.locks.curMode.Some? || s.locks.shared == {}
    ensures Numbered(HandOver(s, handle, ok).value)
  {
    hide LiveHandles, GrantAll;
    var pending, next := s.locks.pending, NextHandles(s);
    LiveHandlesLive(pending[..FrontGroup(pending)], s.live);
    if next != [] && ok {
      var l := s.locks.(pending := pending[FrontGroup(pending)..], curMode := Some(pending[0].mode));
      HandedOver(s, l);
      assert next[0] in (set h | h in next) && next[0] != 0;
      assert l.shared == {} ==> l.locked + {next[0]} == {next[0]};
    }
  }

  /** From agreement, a release leads to agreement exactly when it is safe. */
  lemma ReleaseAgreesExactly(g: Guard, s: Node, handle: nat, ok: bool)
    requires Agree(s.locks) && Numbered(s) && Release(g, s, handle, ok).Some?
    ensures Agree(Release(g, s, handle, ok).value.locks) <==> ReleaseIsSafe(g, s, handle, ok)
    ensures Numbered(Release(g, s, handle, ok).value)
  {
    hide HandOver, FrontGroup, LiveHandles;
    if handle in s.locks.locked {
      var rest := s.(locks := Reset(g, Dropped(s.locks, handle)));
      if !(s.locks.pending == [] || (g.Both? && Dropped(s.locks, handle).shared != {})) {
        HandOverAgrees(rest, handle, ok);
      }
    }
  }

  /** The handle is flagged as a holder, but the node does not name it as one. */
  predicate Misnamed(l: LockState, handle: nat) {
    if l.exclusive != 0 then l.exclusive != handle else handle !in l.shared
  }

  /** The handle waits in the front group, and the release goes on to hand the lock over. */
  predicate WaitsForItself(g: Guard, s: Node, handle: nat, ok: bool) {
    handle in NextHandles(s) && ok && !(g.Both? && Remaining(s.locks, handle) != {})
  }

  /**
   * A release by a holder fails an assertion exactly when the node does not
   * name it as its holder, or when the handle waits for itself.  While mode,
   * holders and flags agree, only the second happens.
   */
  lemma ReleaseAbortsExactly(g: Guard, s: Node, handle: nat, ok: bool)
    ensures Release(g, s, handle, ok).None? <==>
            handle in s.locks.locked && (Misnamed(s.locks, handle) || WaitsForItself(g, s, handle, ok))
    ensures Agree(s.locks) ==> !(handle in s.locks.locked && Misnamed(s.locks, handle))
  {
  }

  // ----- Whole runs -----

  /** The step asks for nothing but exclusive locks. */
  predicate AsksExclusive(step: Step) {
    match step
    case Opening(mode, _, _, _) => mode != Some(Shared)
    case Locking(_, mode, _, _) => mode.Exclusive?
    case _ => true
  }

  /** Nobody holds the lock or waits for it in shared mode. */
  ghost predicate OnlyExclusive(l: LockState) {
    l.shared == {} && forall i :: 0 <= i < |l.pending| ==> l.pending[i].mode.Exclusive?
  }

  lemma ReleaseKeepsExclusive(g: Guard, s: Node, handle: nat, ok: bool)
    requires OnlyExclusive(s.locks) && Release(g, s, handle, ok).Some?
    ensures OnlyExclusive(Release(g, s, handle, ok).value.locks)
  {
    hide LiveHandles, GrantAll;
    if s.locks.pending != [] && handle in s.locks.locked {
      var rest := s.(locks := Reset(g, Dropped(s.locks, handle)));
      if NextHandles(rest) != [] {
        HandedOver(rest, rest.locks.(pending := s.locks.pending[1..], curMode := Some(Exclusive)));
      }
    }
  }

  /** A step keeps the agreement unless it is an unsafe release. */
  lemma StepAgreesExactly(g: Guard, s: Node, step: Step)
    requires Agree(s.locks) && Numbered(s) && Next(g, s, step).Some?
    ensures Agree(Next(g, s, step).value.locks) <==>
            (step.Releasing? ==> ReleaseIsSafe(g, s, step.handle, step.ok))
    ensures Numbered(Next(g, s, step).value)
  {
    hide Release, NextHandles, ReleaseIsSafe;
    match step {
      case Opening(mode, create, retries, ok) => OpenAgrees(s, mode, create, retries, ok);
      case Locking(handle, mode, try, ok) =>
        if Opened(s, handle) {
          LockAgrees(s, handle, mode, try, ok);
        }
      case Releasing(handle, ok) => ReleaseAgreesExactly(g, s, handle, ok);
      case Unregistering(handle) =>
      case Restarting =>
    }
  }

  lemma StepAgrees(g: Guard, s: Node, step: Step)
    requires Agree(s.locks) && Numbered(s) && Next(g, s, step).Some?
    requires g.Both? || (OnlyExclusive(s.locks) && AsksExclusive(step))
    ensures Agree(Next(g, s, step).value.locks) && Numbered(Next(g, s, step).value)
    ensures !g.Both? ==> OnlyExclusive(Next(g, s, step).value.locks)
  {
    hide Release, NextHandles;
    StepAgreesExactly(g, s, step);
    if step.Releasing? && !g.Both? {
      ReleaseKeepsExclusive(g, s, step.handle, step.ok);
    }
  }

  /**
   * On every run, mode, holders and flags agree and an exclusive holder is
   * alone: with the whole tail of the release guarded for all locks, and as
   * written when only exclusive locks are asked for.
   */
  lemma {:induction false} RunAgrees(g: Guard, s: Node, steps: seq<Step>)
    requires Agree(s.locks) && Numbered(s) && Run(g, s, steps).Some?
    requires g.Both? || (OnlyExclusive(s.locks) && forall i :: 0 <= i < |steps| ==> AsksExclusive(steps[i]))
    ensures Agree(Run(g, s, steps).value.locks) && Numbered(Run(g, s, steps).value)
    decreases |steps|
  {
    hide Next, Agree, Numbered, OnlyExclusive, AsksExclusive;
    if steps != [] {
      StepAgrees(g, s, steps[0]);
      RunAgrees(g, Next(g, s, steps[0]).value, steps[1..]);
    }
  }

  lemma ExclusiveIsAlone(g: Guard, steps: seq<Step>)
    requires Run(g, Fresh, steps).Some?
    requires g.Both? || forall i :: 0 <= i < |steps| ==> AsksExclusive(steps[i])
    ensures var l := Run(g, Fresh, steps).value.locks;
            l.exclusive != 0 ==> l.locked == {l.exclusive} && l.shared == {} && l.curMode == Some(Exclusive)
  {
    RunAgrees(g, Fresh, steps);
  }

  ghost predicate AgreeThroughout(g: Guard, s: Node, steps: seq<Step>)
    decreases |steps|
  {
    Agree(s.locks) &&
    (steps == [] || Next(g, s, steps[0]).None? || AgreeThroughout(g, Next(g, s, steps[0]).value, steps[1..]))
  }

  ghost predicate EveryReleaseIsSafe(g: Guard, s: Node, steps: seq<Step>)
    decreases |steps|
  {
    steps == [] || Next(g, s, steps[0]).None? ||
    ((steps[0].Releasing? ==> ReleaseIsSafe(g, s, steps[0].handle, steps[0].ok)) &&
     EveryReleaseIsSafe(g, Next(g, s, steps[0]).value, steps[1..]))
  }

  /**
   * In every run of every form of the release, mode, holders and flags agree
   * at all times exactly when every release of the run is safe.
   */
  lemma {:induction false} AgreeThroughoutExactly(g: Guard, s: Node, steps: seq<Step>)
    requires Agree(s.locks) && Numbered(s)
    ensures AgreeThroughout(g, s, steps) <==> EveryReleaseIsSafe(g, s, steps)
    decreases |steps|
  {
    hide Next, Agree, Numbered, ReleaseIsSafe;
    if steps != [] && Next(g, s, steps[0]).Some? {
      var t := Next(g, s, steps[0]).value;
      StepAgreesExactly(g, s, steps[0]);
      if Agree(t.locks) {
        AgreeThroughoutExactly(g, t, steps[1..]);
      }
    }
  }

  /** A holder releases that the node does not name as its holder, or that waits for itself. */
  ghost predicate Aborts(g: Guard, s: Node, step: Step) {
    step.Releasing? && step.handle in s.locks.locked &&
    (Misnamed(s.locks, step.handle) || WaitsForItself(g, s, step.handle, step.ok))
  }

  ghost predicate SomeStepAborts(g: Guard, s: Node, steps: seq<Step>)
    decreases |steps|
  {
    steps != [] &&
    (Aborts(g, s, steps[0]) ||
     (Next(g, s, steps[0]).Some? && SomeStepAborts(g, Next(g, s, steps[0]).value, steps[1..])))
  }

  /** Every run of every form of the release: the master fails an assertion exactly when some release aborts. */
  lemma {:induction false} RunAbortsExactly(g: Guard, s: Node, steps: seq<Step>)
    ensures Run(g, s, steps).None? <==> SomeStepAborts(g, s, steps)
    decreases |steps|
  {
    hide Release, Misnamed, WaitsForItself;
    if steps != [] {
      if steps[0].Releasing? {
        ReleaseAbortsExactly(g, s, steps[0].handle, steps[0].ok);
      }
      if Next(g, s, steps[0]).Some? {
        RunAbortsExactly(g, Next(g, s, steps[0]).value, steps[1..]);
      }
    }
  }

  /** Some release of the run comes from a holder that waits for itself. */
  ghost predicate SomeHolderWaits(g: Guard, s: Node, steps: seq<Step>)
    decreases |steps|
  {
    steps != [] &&
    ((steps[0].Releasing? && steps[0].handle in s.locks.locked &&
      WaitsForItself(g, s, steps[0].handle, steps[0].ok)) ||
     (Next(g, s, steps[0]).Some? && SomeHolderWaits(g, Next(g, s, steps[0]).value, steps[1..])))
  }

  /** As long as every release is safe, it does so only when a holder waits for itself. */
  lemma {:induction false} SafeRunAbortsExactly(g: Guard, s: Node, steps: seq<Step>)
    requires Agree(s.locks) && Numbered(s) && EveryReleaseIsSafe(g, s, steps)
    ensures Run(g, s, steps).None? <==> SomeHolderWaits(g, s, steps)
    decreases |steps|
  {
    hide Release, Agree, Numbered, ReleaseIsSafe, Misnamed, WaitsForItself;
    if steps != [] {
      if steps[0].Releasing? {
        ReleaseAbortsExactly(g, s, steps[0].handle, steps[0].ok);
      }
      if Next(g, s, steps[0]).Some? {
        StepAgreesExactly(g, s, steps[0]);
        SafeRunAbortsExactly(g, Next(g, s, steps[0]).value, steps[1..]);
      }
    }
  }

  // ----- What a hand-over does to the queue -----

  /** The front group: one exclusive request, or the longest run of shared ones. */
  ghost predicate IsFrontGroup(pending: seq<LockRequest>, n: nat) {
    && 1 <= n <= |pending|
    && (pending[0].mode.Exclusive? ==> n == 1)
    && (pending[0].mode.Shared? ==> forall i :: 0 <= i < n ==> pending[i].mode.Shared?)
    && (pending[0].mode.Shared? && n < |pending| ==> pending[n].mode.Exclusive?)
  }

  lemma HandOverHolders(s: Node, handle: nat, ok: bool)
    requires s.locks.pending != [] && HandOver(s, handle, ok).Some?
    ensures var t, n := HandOver(s, handle, ok).value, FrontGroup(s.locks.pending);
            && t.live == s.live && t.locks.pending == s.locks.pending[n..]
            && t.locks.locked == s.locks.locked + (if ok then set h | h in NextHandles(s) else {})
  {
    hide LiveHandles, GrantAll, FrontGroup;
    if NextHandles(s) != [] {
      var pending := s.locks.pending;
      HandedOver(s, s.locks.(pending := pending[FrontGroup(pending)..], curMode := Some(pending[0].mode)));
      if pending[0].mode.Exclusive? {
        NextExclusive(s);
        assert (set h | h in NextHandles(s)) == {NextHandles(s)[0]};
      }
    }
  }

  /** The release gets as far as the queue. */
  ghost predicate TriesHandOver(g: Guard, s: Node, handle: nat) {
    handle in s.locks.locked && s.locks.pending != [] && (g.Both? ==> Dropped(s.locks, handle).shared == {})
  }

  lemma ReleaseHolders(g: Guard, s: Node, handle: nat, ok: bool)
    requires Release(g, s, handle, ok).Some? && TriesHandOver(g, s, handle)
    ensures var t, n := Release(g, s, handle, ok).value, FrontGroup(s.locks.pending);
            && t.live == s.live && t.locks.pending == s.locks.pending[n..]
            && t.locks.locked == s.locks.locked - {handle} + (if ok then set h | h in NextHandles(s) else {})
  {
    hide HandOver, LiveHandles, FrontGroup;
    HandOverHolders(s.(locks := Reset(g, Dropped(s.locks, handle))), handle, ok);
  }

  /**
   * A release that hands over takes the front group from the queue and leaves
   * the rest in order.  It gives the lock to exactly those handles of the group
   * that are open, if the database takes the generation, and to nobody if not.
   */
  lemma HandOverTakesFront(g: Guard, s: Node, handle: nat, ok: bool, h: nat) returns (n: nat)
    requires Release(g, s, handle, ok).Some? && TriesHandOver(g, s, handle)
    ensures IsFrontGroup(s.locks.pending, n)
    ensures var t := Release(g, s, handle, ok).value;
            && t.locks.pending == s.locks.pending[n..]
            && (h in t.locks.locked <==>
                (h in s.locks.locked && h != handle) ||
                (ok && h in s.live && exists i :: 0 <= i < n && s.locks.pending[i].handle == h))
  {
    hide Release, LiveHandles;
    n := FrontGroup(s.locks.pending);
    var group := s.locks.pending[..n];
    LiveHandlesAre(group, s.live, h);
    assert forall i :: 0 <= i < n ==> group[i] == s.locks.pending[i];
    ReleaseHolders(g, s, handle, ok);
  }

  /** Some open handle waits. */
  ghost predicate HasLiveWaiter(pending: seq<LockRequest>, live: set<nat>) {
    exists i :: 0 <= i < |pending| && pending[i].handle in live
  }

  /**
   * When the only holder releases, the lock is left free although an open
   * handle waits exactly when the front group gets nothing, because each of its
   * handles is destroyed or the database refuses the generation, and a handle
   * further back is open: only one group is tried.
   */
  lemma StuckExactly(g: Guard, s: Node, handle: nat, ok: bool)
    requires s.locks.locked == {handle} && s.locks.pending != [] && Release(g, s, handle, ok).Some?
    requires g.Both? ==> Remaining(s.locks, handle) == {}
    ensures var t := Release(g, s, handle, ok).value;
            t.locks.locked == {} && HasLiveWaiter(t.locks.pending, t.live) <==>
            (NextHandles(s) == [] || !ok) && HasLiveWaiter(s.locks.pending[FrontGroup(s.locks.pending)..], s.live)
  {
    hide Release, LiveHandles, FrontGroup;
    assert s.locks.locked - {handle} == {};
    ReleaseHolders(g, s, handle, ok);
    if NextHandles(s) != [] && ok {
      assert NextHandles(s)[0] in (set h | h in NextHandles(s));
      assert NextHandles(s)[0] in Release(g, s, handle, ok).value.locks.locked;
    }
  }

  // ----- Holders are open -----

  /** Handles that are unregistered, but whose lock is not yet released. */
  function Dying(dying: set<nat>, step: Step): set<nat> {
    match step
    case Unregistering(handle) => dying + {handle}
    case Releasing(handle, _) => dying - {handle}
    case _ => dying
  }

  /** A request whose handle has been destroyed is granted. */
  predicate OvertakenGrant(s: Node, step: Step, dying: set<nat>) {
    step.Locking? && Opened(s, step.handle) && step.handle !in s.live + dying &&
    !MustWait(s.locks, step.lockMode) && step.ok
  }

  /** Only open handles and handles that are being destroyed hold the lock. */
  ghost predicate HeldByOpen(s: Node, dying: set<nat>) {
    s.locks.locked <= s.live + dying
  }

  /** A step keeps the lock with open handles exactly when it does not grant it to a destroyed one. */
  lemma StepHeldExactly(g: Guard, s: Node, step: Step, dying: set<nat>)
    requires HeldByOpen(s, dying) && Next(g, s, step).Some?
    ensures HeldByOpen(Next(g, s, step).value, Dying(dying, step)) <==> !OvertakenGrant(s, step, dying)
  {
    hide LiveHandles, HandOver, FrontGroup;
    if step.Releasing? && TriesHandOver(g, s, step.handle) {
      ReleaseHolders(g, s, step.handle, step.ok);
      LiveHandlesLive(s.locks.pending[..FrontGroup(s.locks.pending)], s.live);
    }
    if OvertakenGrant(s, step, dying) {
      assert step.handle in Next(g, s, step).value.locks.locked;
    }
  }

  ghost predicate HeldThroughout(g: Guard, s: Node, steps: seq<Step>, dying: set<nat>)
    decreases |steps|
  {
    HeldByOpen(s, dying) &&
    (steps == [] || Next(g, s, steps[0]).None? ||
     HeldThroughout(g, Next(g, s, steps[0]).value, steps[1..], Dying(dying, steps[0])))
  }

  ghost predicate NeverOvertaken(g: Guard, s: Node, steps: seq<Step>, dying: set<nat>)
    decreases |steps|
  {
    steps == [] || Next(g, s, steps[0]).None? ||
    (!OvertakenGrant(s, steps[0], dying) &&
     NeverOvertaken(g, Next(g, s, steps[0]).value, steps[1..], Dying(dying, steps[0])))
  }

  /**
   * In every run, only open handles and handles that are being destroyed hold
   * the lock at any time, exactly when no request is granted whose handle has
   * been destroyed since it was looked up.
   */
  lemma {:induction false} HeldThroughoutExactly(g: Guard, s: Node, steps: seq<Step>, dying: set<nat>)
    requires HeldByOpen(s, dying)
    ensures HeldThroughout(g, s, steps, dying) <==> NeverOvertaken(g, s, steps, dying)
    decreases |steps|
  {
    hide Next, HeldByOpen, OvertakenGrant;
    if steps != [] && Next(g, s, steps[0]).Some? {
      StepHeldExactly(g, s, steps[0], dying);
      if !OvertakenGrant(s, steps[0], dying) {
        HeldThroughoutExactly(g, Next(g, s, steps[0]).value, steps[1..], Dying(dying, steps[0]));
      }
    }
  }
}
