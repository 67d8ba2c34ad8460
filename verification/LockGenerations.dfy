/**
 * Lock generations as fencing tokens: on every run, over restarts of the
 * master, deadlocks and failures of the database, each grant carries a larger
 * generation than all grants before it.
 */
module LockGenerations {
  import opened Sequences
  import opened Locks
  import opened LockSafety

  ghost predicate Ascending(s: seq<nat>) {
    forall i, j :: 0 <= i < j < |s| ==> s[i] < s[j]
  }

  ghost predicate AtMost(s: seq<nat>, bound: nat) {
    forall i :: 0 <= i < |s| ==> s[i] <= bound
  }

  /**
   * The stored generation bounds every grant, the one in memory bounds the
   * stored one once the node was opened, and nothing is held, awaited or
   * granted before that.
   */
  ghost predicate Fenced(s: Node) {
    && Ascending(s.grants) && AtMost(s.grants, s.stored)
    && (s.generation != 0 ==> s.stored <= s.generation)
    && (s.generation == 0 ==> s.lastHandle <= 1 && s.locks.locked == {})
    && (!s.present ==> s.stored == 0 && s.grants == [] && s.lastHandle <= 1 && s.locks.locked == {})
  }

  lemma Extends(s: seq<nat>, bound: nat, g: nat)
    requires Ascending(s) && AtMost(s, bound) && bound < g
    ensures Ascending(s + [g]) && AtMost(s + [g], g)
  {
  }

  lemma OpenFenced(s: Node, mode: Option<Mode>, create: bool, retries: nat, ok: bool)
    requires Fenced(s)
    ensures Fenced(Open(s, mode, create, retries, ok))
  {
    hide Ascending, AtMost;
    if mode.Some? {
      Extends(s.grants, s.stored, OpenedGeneration(s) + (if s.present then retries + 1 else 1));
    }
    if s.stored == 0 {
      AtMostGrows(s.grants, 1);
    }
  }

  lemma AtMostGrows(s: seq<nat>, bound: nat)
    ensures AtMost(s, 0) ==> AtMost(s, bound)
  {
  }

  lemma LockFenced(s: Node, handle: nat, mode: Mode, try: bool, ok: bool)
    requires Fenced(s) && Opened(s, handle)
    ensures Fenced(Lock(s, handle, mode, try, ok).0)
  {
    hide Ascending, AtMost;
    Extends(s.grants, s.stored, s.generation + 1);
  }

  lemma ReleaseFenced(g: Guard, s: Node, handle: nat, ok: bool)
    requires Fenced(s) && Release(g, s, handle, ok).Some?
    ensures Fenced(Release(g, s, handle, ok).value)
  {
    hide Ascending, AtMost, GrantAll, NextHandles, FrontGroup;
    if handle in s.locks.locked {
      Extends(s.grants, s.stored, s.generation + 1);
    }
  }

  lemma StepFenced(g: Guard, s: Node, step: Step)
    requires Fenced(s) && Next(g, s, step).Some?
    ensures Fenced(Next(g, s, step).value)
  {
    hide Release, Open, Lock, Ascending, AtMost;
    match step {
      case Opening(mode, create, retries, ok) => OpenFenced(s, mode, create, retries, ok);
      case Locking(handle, mode, try, ok) =>
        if Opened(s, handle) {
          LockFenced(s, handle, mode, try, ok);
        }
      case Releasing(handle, ok) => ReleaseFenced(g, s, handle, ok);
      case Unregistering(handle) =>
      case Restarting =>
    }
  }

  lemma {:induction false} RunFenced(g: Guard, s: Node, steps: seq<Step>)
    requires Fenced(s) && Run(g, s, steps).Some?
    ensures Fenced(Run(g, s, steps).value)
    decreases |steps|
  {
    hide Next, Fenced;
    if steps != [] {
      StepFenced(g, s, steps[0]);
      RunFenced(g, Next(g, s, steps[0]).value, steps[1..]);
    }
  }

  lemma FreshFenced()
    ensures Fenced(Fresh)
  {
  }

  /** Successive grants of a node carry strictly increasing generations, and the database holds a bound of them all. */
  lemma GrantsIncrease(g: Guard, steps: seq<Step>)
    requires Run(g, Fresh, steps).Some?
    ensures Ascending(Run(g, Fresh, steps).value.grants)
    ensures AtMost(Run(g, Fresh, steps).value.grants, Run(g, Fresh, steps).value.stored)
  {
    RunFenced(g, Fresh, steps);
  }

  // ----- What a grant carries -----

  /** The step grants the lock with a generation that is in memory, stored, recorded, and larger than all before it. */
  ghost predicate GrantsNew(s: Node, t: Node) {
    && t.grants == s.grants + [t.generation] && t.stored == t.generation
    && forall i :: 0 <= i < |s.grants| ==> s.grants[i] < t.generation
  }

  lemma BoundedGrants(s: Node, generation: nat)
    requires Fenced(s) && s.stored < generation
    ensures forall i :: 0 <= i < |s.grants| ==> s.grants[i] < generation
  {
  }

  /** A step that records a grant, or makes anybody a holder, grants the lock with a new generation. */
  lemma StepGrantsNew(g: Guard, s: Node, step: Step)
    requires Fenced(s) && Next(g, s, step).Some?
    ensures var t := Next(g, s, step).value;
            t.grants != s.grants || !(t.locks.locked <= s.locks.locked) ==> GrantsNew(s, t)
  {
    hide Ascending, AtMost, FrontGroup, LiveHandles, GrantAll;
    var t := Next(g, s, step).value;
    if t.grants != s.grants {
      BoundedGrants(s, t.generation);
    }
  }

  /**
   * The answer to a request, in every run: a grant is answered with its own
   * generation, which is stored, the last one recorded, and larger than that of
   * every grant before it; nothing is granted with any other answer.
   */
  lemma LockAnswer(g: Guard, steps: seq<Step>, handle: nat, mode: Mode, try: bool, ok: bool)
    requires Run(g, Fresh, steps).Some? && Opened(Run(g, Fresh, steps).value, handle)
    ensures var s := Run(g, Fresh, steps).value;
            var (t, reply) := Lock(s, handle, mode, try, ok);
            match reply
            case Granted(generation) =>
              ok && t.generation == generation && GrantsNew(s, t) && t.locks.locked == s.locks.locked + {handle}
            case Pending => !try && t == s.(locks := t.locks) &&
                            t.locks == s.locks.(pending := s.locks.pending + [LockRequest(handle, mode)])
            case Busy => try && t == s
            case Failed => !ok && t == s.(generation := t.generation)
  {
    hide Ascending, AtMost;
    var s := Run(g, Fresh, steps).value;
    FreshFenced();
    RunFenced(g, Fresh, steps);
    BoundedGrants(s, s.generation + 1);
  }

  /** The same for an open: one that succeeds with a lock gets it with a new generation; others get none. */
  lemma OpenAnswer(g: Guard, steps: seq<Step>, mode: Option<Mode>, create: bool, retries: nat, ok: bool)
    requires Run(g, Fresh, steps).Some?
    ensures var s := Run(g, Fresh, steps).value;
            var t := Open(s, mode, create, retries, ok);
            if t.lastHandle == s.lastHandle || mode.None? then t.grants == s.grants && t.locks == s.locks
            else GrantsNew(s, t) && t.locks.locked == s.locks.locked + {t.lastHandle}
    ensures var s := Run(g, Fresh, steps).value;
            var t := Open(s, mode, create, retries, ok);
            if ok && (s.present || create) && (mode.None? || s.locks.exclusive == 0) &&
               (mode == Some(Exclusive) ==> s.locks.shared == {})
            then t.lastHandle == s.lastHandle + 1 && t.live == s.live + {t.lastHandle} && t.present
            else t == s.(generation := t.generation)
  {
    hide Ascending, AtMost;
    var s := Run(g, Fresh, steps).value;
    FreshFenced();
    RunFenced(g, Fresh, steps);
    BoundedGrants(s, OpenedGeneration(s) + 1);
  }

  /** In every run a node that exists has a generation in the database: one that is made stores its first at once. */
  lemma {:induction false} StoredOnceMade(g: Guard, s: Node, steps: seq<Step>)
    requires Run(g, s, steps).Some? && (s.present ==> s.stored > 0)
    ensures Run(g, s, steps).value.present ==> Run(g, s, steps).value.stored > 0
    decreases |steps|
  {
    hide FrontGroup, LiveHandles, GrantAll, NextHandles;
    if steps != [] {
      StoredOnceMade(g, Next(g, s, steps[0]).value, steps[1..]);
    }
  }

  // ----- How often the generation is raised -----

  /** The step tries to grant the lock: to the request, or to open handles of the front group. */
  ghost predicate Attempts(g: Guard, s: Node, step: Step) {
    match step
    case Locking(handle, mode, _, _) =>
      Opened(s, handle) &&
      (s.locks.curMode.None? || (s.locks.curMode == Some(Shared) && mode.Shared? && s.locks.pending == []))
    case Releasing(handle, _) => TriesHandOver(g, s, handle) && NextHandles(s) != []
    case _ => false
  }

  ghost function AttemptCount(g: Guard, s: Node, steps: seq<Step>): nat
    decreases |steps|
  {
    if steps == [] || Next(g, s, steps[0]).None? then 0
    else B(Attempts(g, s, steps[0])) + AttemptCount(g, Next(g, s, steps[0]).value, steps[1..])
  }

  /**
   * Each attempt at an open that asks for the lock raises the generation once,
   * also those that end in a deadlock; one that does not ask leaves it.
   */
  lemma OpenRaises(s: Node, mode: Option<Mode>, create: bool, retries: nat, ok: bool)
    requires s.present && s.generation != 0 && !Conflict(s.locks, mode)
    ensures Open(s, mode, create, retries, ok).generation == s.generation + (if mode.None? then 0 else retries + 1)
  {
  }

  lemma StepRaises(g: Guard, s: Node, step: Step)
    requires Next(g, s, step).Some? && !step.Opening? && !step.Restarting?
    ensures Next(g, s, step).value.generation == s.generation + B(Attempts(g, s, step))
  {
    hide FrontGroup, LiveHandles, GrantAll;
    match step {
      case Locking(handle, mode, try, ok) =>
        assert s.locks.curMode.Some? ==> s.locks.curMode.value.Shared? || s.locks.curMode.value.Exclusive?;
      case Releasing(handle, ok) =>
        if TriesHandOver(g, s, handle) {
          var rest := s.(locks := Reset(g, Dropped(s.locks, handle)));
          assert NextHandles(rest) == NextHandles(s);
        }
      case Unregistering(handle) =>
    }
  }

  /** While no handle is opened, the generation counts the attempts to grant the lock. */
  lemma {:induction false} GenerationCounts(g: Guard, s: Node, steps: seq<Step>)
    requires Run(g, s, steps).Some?
    requires forall i :: 0 <= i < |steps| ==> !steps[i].Opening? && !steps[i].Restarting?
    ensures Run(g, s, steps).value.generation == s.generation + AttemptCount(g, s, steps)
    decreases |steps|
  {
    hide Next, Attempts;
    if steps != [] {
      StepRaises(g, s, steps[0]);
      GenerationCounts(g, Next(g, s, steps[0]).value, steps[1..]);
    }
  }

  /** After a restart nobody holds the lock, nobody waits and no handle is open; the database is as it was. */
  lemma RestartForgets(g: Guard, s: Node)
    ensures var t := Next(g, s, Restarting).value;
            && t.locks.locked == {} && t.locks.shared == {} && t.locks.exclusive == 0 && t.locks.curMode.None?
            && t.locks.pending == [] && t.live == {} && t.generation == 0
            && t.present == s.present && t.stored == s.stored && t.grants == s.grants
  {
  }

  /** A grant after a restart fences off every grant before it. */
  lemma RestartKeepsFencing(g: Guard, before: seq<Step>, mode: Mode, create: bool, retries: nat)
    requires Run(g, Fresh, before).Some? && Run(g, Fresh, before).value.grants != []
    ensures var s := Run(g, Fresh, before).value;
            var t := Open(Restarted(s), Some(mode), create, retries, true);
            |t.grants| == |s.grants| + 1 &&
            forall i :: 0 <= i < |s.grants| ==> s.grants[i] < t.grants[|s.grants|]
  {
    RunFenced(g, Fresh, before);
    OpenFenced(Restarted(Run(g, Fresh, before).value), Some(mode), create, retries, true);
  }
}
