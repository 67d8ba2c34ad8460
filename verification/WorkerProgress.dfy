/**
 * What the workers of the application queue can always still do: no reachable
 * state is a dead end.  Requests that are queued can be carried out as long as
 * some worker is idle or running, a worker can always get to scan again before
 * shutdown, and after shutdown all of them can exit.
 */
module WorkerProgress {
  import opened Sequences
  import opened ApplicationQueue

  lemma Cons(s: System, step: Step, steps: seq<Step>, t: System)
    requires Enabled(s, step) && Reaches(Apply(s, step), steps, t)
    ensures Reaches(s, [step] + steps, t)
  {
    assert ([step] + steps)[0] == step && ([step] + steps)[1..] == steps;
  }

  lemma {:induction false} Concat(s: System, a: seq<Step>, t: System, b: seq<Step>, u: System)
    requires Reaches(s, a, t) && Reaches(t, b, u)
    ensures Reaches(s, a + b, u)
    decreases |a|
  {
    hide Apply, Enabled;
    if a == [] {
      assert a + b == b;
    } else {
      assert (a + b)[0] == a[0] && (a + b)[1..] == a[1..] + b;
      Concat(Apply(s, a[0]), a[1..], t, b, u);
    }
  }

  // ----- Requests can be carried out -----

  ghost predicate NoneRunning(s: System) {
    forall w :: 0 <= w < |s.workers| ==> !s.workers[w].Running?
  }

  /** Running workers have become idle; queue, flag and what was pushed are the same. */
  ghost predicate Settles(s: System, t: System) {
    && t.sh.shutdown == s.sh.shutdown && t.sh.queue == s.sh.queue && t.pushed == s.pushed && t.half == s.half
    && |t.workers| == |s.workers|
    && forall w :: 0 <= w < |s.workers| ==> t.workers[w] == if s.workers[w].Running? then Idle else s.workers[w]
  }

  lemma FinishKeeps(sh: Shared, rec: WorkRec)
    ensures Finish(sh, rec).queue == sh.queue && Finish(sh, rec).shutdown == sh.shutdown
  {
  }

  /** The workers from `k` on complete what they run. */
  lemma {:induction false} CompleteFrom(s: System, k: nat) returns (steps: seq<Step>, t: System)
    requires Inv(s) && k <= |s.workers| && forall w :: 0 <= w < k ==> !s.workers[w].Running?
    ensures Reaches(s, steps, t) && Inv(t) && NoneRunning(t) && Settles(s, t)
    decreases |s.workers| - k
  {
    hide Inv, Finish;
    if k == |s.workers| {
      steps, t := [], s;
    } else if s.workers[k].Running? {
      StepOk(s, Complete(k));
      FinishKeeps(s.sh, s.workers[k].rec);
      var more: seq<Step>;
      more, t := CompleteFrom(Apply(s, Complete(k)), k + 1);
      Cons(s, Complete(k), more, t);
      steps := [Complete(k)] + more;
    } else {
      steps, t := CompleteFrom(s, k + 1);
    }
  }

  /** While nothing runs, the first request in the queue is runnable. */
  lemma FrontIsRunnable(s: System)
    requires Inv(s) && NoneRunning(s) && s.sh.queue != []
    ensures FirstRunnable(s.sh.queue, s.sh.store, 0) == 0
  {
    if !Runnable(s.sh.queue[0], s.sh.store) {
      var w := BlockedByWorker(s, 0);
    }
  }

  /** A scan and a completion: the worker is idle again and the front request is done. */
  lemma ServeOne(s: System, w: nat) returns (t: System)
    requires Inv(s) && NoneRunning(s) && w < |s.workers| && s.workers[w].Idle? && s.sh.queue != []
    ensures Reaches(s, [Scan(w), Complete(w)], t) && Inv(t) && t.workers == s.workers
    ensures t.sh.queue == s.sh.queue[1..] && t.sh.shutdown == s.sh.shutdown && t.pushed == s.pushed
    ensures t.completed == s.completed + [s.sh.queue[0]]
  {
    hide Inv, Finish, SetRunning;
    FrontIsRunnable(s);
    StepOk(s, Scan(w));
    var u := Apply(s, Scan(w));
    assert u.workers[w] == Running(s.sh.queue[0]);
    assert s.sh.queue[..0] + s.sh.queue[1..] == s.sh.queue[1..];
    StepOk(u, Complete(w));
    FinishKeeps(u.sh, u.workers[w].rec);
    t := Apply(u, Complete(w));
    assert t.workers == s.workers;
    assert Reaches(t, [], t);
    Cons(u, Complete(w), [], t);
    Cons(s, Scan(w), [Complete(w)] + [], t);
    assert [Scan(w)] + ([Complete(w)] + []) == [Scan(w), Complete(w)];
  }

  /** One worker carries out the whole queue. */
  lemma {:induction false} ServeQueue(s: System, w: nat) returns (steps: seq<Step>, t: System)
    requires Inv(s) && NoneRunning(s) && w < |s.workers| && s.workers[w].Idle?
    ensures Reaches(s, steps, t) && Inv(t) && t.workers == s.workers && t.sh.queue == []
    ensures t.sh.shutdown == s.sh.shutdown && t.pushed == s.pushed && t.completed == s.completed + s.sh.queue
    decreases |s.sh.queue|
  {
    hide Inv, Apply, Enabled, Reaches;
    if s.sh.queue == [] {
      steps, t := [], s;
      assert Reaches(s, [], s) by { ReachesNothing(s); }
      assert s.completed + [] == s.completed;
    } else {
      var u := ServeOne(s, w);
      var more: seq<Step>;
      more, t := ServeQueue(u, w);
      Concat(s, [Scan(w), Complete(w)], u, more, t);
      steps := [Scan(w), Complete(w)] + more;
      Assoc(s.completed, [s.sh.queue[0]], s.sh.queue[1..]);
      assert [s.sh.queue[0]] + s.sh.queue[1..] == s.sh.queue;
    }
  }

  lemma ReachesNothing(s: System)
    ensures Reaches(s, [], s)
  {
  }

  /** With an empty queue and nothing running, all that was pushed has completed. */
  lemma AllCompleted(s: System)
    requires Inv(s) && NoneRunning(s) && s.sh.queue == []
    ensures multiset(s.completed) == multiset(s.pushed)
  {
    forall rec ensures multiset(s.completed)[rec] == multiset(s.pushed)[rec] {
      assert Conserved(s, rec);
      CountNone(s.workers, Runs(Is(rec)));
      CountIsMultiplicity(s.completed, rec);
      CountIsMultiplicity(s.pushed, rec);
    }
  }

  /**
   * From every state in which some worker is idle or running, the workers can
   * carry out all that was pushed: each request exactly once.
   */
  lemma CanServe(s: System) returns (steps: seq<Step>, t: System)
    requires Inv(s) && Active(s)
    ensures Reaches(s, steps, t) && Inv(t) && NoneRunning(t) && t.sh.queue == [] && t.pushed == s.pushed
    ensures multiset(t.completed) == multiset(s.pushed) && t.sh.shutdown == s.sh.shutdown
    ensures |t.workers| == |s.workers|
  {
    hide Inv, Reaches;
    var w: nat :| w < |s.workers| && WillScan(s.workers[w]);
    var first, u := CompleteFrom(s, 0);
    var rest: seq<Step>;
    rest, t := ServeQueue(u, w);
    Concat(s, first, u, rest, t);
    steps := first + rest;
    AllCompleted(t);
  }

  /** In every run before shutdown, all that was pushed can be carried out. */
  lemma NeverStuck(n: nat, before: seq<Step>, s: System) returns (steps: seq<Step>, t: System)
    requires n > 0 && Reaches(Init(n), before, s) && !s.sh.shutdown
    ensures Reaches(s, steps, t) && t.sh.queue == [] && multiset(t.completed) == multiset(s.pushed)
  {
    InitOk(n);
    RunOk(Init(n), before, s);
    steps, t := CanServe(s);
  }

  // ----- Workers come back, and leave only after shutdown -----

  ghost predicate NoneGone(s: System) {
    !s.sh.shutdown ==> forall w :: 0 <= w < |s.workers| ==> !s.workers[w].Exited?
  }

  lemma StepKeepsWorkers(s: System, step: Step)
    requires NoneGone(s) && Enabled(s, step)
    ensures NoneGone(Apply(s, step))
  {
    if step.Complete? {
      FinishKeeps(s.sh, s.workers[step.w].rec);
    }
  }

  lemma {:induction false} NoneLeavesEarly(s: System, steps: seq<Step>, t: System)
    requires NoneGone(s) && Reaches(s, steps, t)
    ensures NoneGone(t)
    decreases |steps|
  {
    hide Apply, Enabled, NoneGone;
    if steps != [] {
      StepKeepsWorkers(s, steps[0]);
      NoneLeavesEarly(Apply(s, steps[0]), steps[1..], t);
    }
  }

  /** No worker exits before shutdown, and each can get to scan again. */
  lemma CanScanAgain(n: nat, before: seq<Step>, s: System, w: nat) returns (steps: seq<Step>, t: System)
    requires Reaches(Init(n), before, s) && !s.sh.shutdown && w < |s.workers|
    ensures Reaches(s, steps, t) && |t.workers| == |s.workers| && t.workers[w].Idle?
  {
    hide Finish;
    NoneLeavesEarly(Init(n), before, s);
    assert Reaches(s, [], s);
    match s.workers[w] {
      case Idle => steps, t := [], s;
      case Running(_) =>
        t := Apply(s, Complete(w));
        assert Reaches(t, [], t);
        Cons(s, Complete(w), [], t);
        steps := [Complete(w)] + [];
      case Waiting =>
        t := Apply(s, Wake(w));
        assert Reaches(t, [], t);
        Cons(s, Wake(w), [], t);
        steps := [Wake(w)] + [];
      case Missed =>
        var u := Apply(s, Leave(w));
        t := Apply(u, Wake(w));
        assert Reaches(t, [], t);
        Cons(u, Wake(w), [], t);
        Cons(s, Leave(w), [Wake(w)] + [], t);
        steps := [Leave(w)] + ([Wake(w)] + []);
    }
  }

  // ----- After shutdown all workers can exit -----

  /** A worker that runs nothing can exit, if it finds the queue empty or does not look at it any more. */
  lemma ExitOne(s: System, w: nat) returns (steps: seq<Step>, t: System)
    requires s.sh.shutdown && w < |s.workers| && !s.workers[w].Running?
    requires s.workers[w].Idle? ==> s.sh.queue == []
    ensures Reaches(s, steps, t) && t == s.(workers := s.workers[w := Exited])
  {
    if s.workers[w].Exited? {
      steps, t := [], s;
      assert s.workers[w := Exited] == s.workers;
    } else {
      var step := if s.workers[w].Idle? then Scan(w) else if s.workers[w].Missed? then Leave(w) else Wake(w);
      t := Apply(s, step);
      assert Reaches(t, [], t);
      Cons(s, step, [], t);
      steps := [step] + [];
    }
  }

  lemma {:induction false} ExitFrom(s: System, k: nat) returns (steps: seq<Step>, t: System)
    requires s.sh.shutdown && NoneRunning(s) && k <= |s.workers|
    requires forall w :: 0 <= w < k ==> s.workers[w].Exited?
    requires s.sh.queue == [] || forall w :: 0 <= w < |s.workers| ==> !s.workers[w].Idle?
    ensures Reaches(s, steps, t) && t == s.(workers := t.workers) && |t.workers| == |s.workers|
    ensures forall w :: 0 <= w < |t.workers| ==> t.workers[w].Exited?
    decreases |s.workers| - k
  {
    hide Reaches;
    if k == |s.workers| {
      steps, t := [], s;
      ReachesNothing(s);
    } else {
      var first, u := ExitOne(s, k);
      var rest: seq<Step>;
      rest, t := ExitFrom(u, k + 1);
      Concat(s, first, u, rest, t);
      steps := first + rest;
    }
  }

  /**
   * From every state after shutdown the workers can all exit; if one of them
   * is still idle or running, all that was pushed is carried out before that.
   */
  lemma CanDrain(n: nat, before: seq<Step>, s: System) returns (steps: seq<Step>, t: System)
    requires n > 0 && Reaches(Init(n), before, s) && s.sh.shutdown
    ensures Reaches(s, steps, t) && forall w :: 0 <= w < |t.workers| ==> t.workers[w].Exited?
    ensures Active(s) ==> t.sh.queue == [] && multiset(t.completed) == multiset(s.pushed)
  {
    hide Reaches, Inv;
    InitOk(n);
    RunOk(Init(n), before, s);
    var first, u := [], s;
    ReachesNothing(s);
    if Active(s) {
      first, u := CanServe(s);
    } else {
      NothingActive(s);
    }
    var rest: seq<Step>;
    rest, t := ExitFrom(u, 0);
    Concat(s, first, u, rest, t);
    steps := first + rest;
  }

  lemma NothingActive(s: System)
    requires !Active(s)
    ensures NoneRunning(s) && forall w :: 0 <= w < |s.workers| ==> !s.workers[w].Idle?
  {
    forall w | 0 <= w < |s.workers| ensures !WillScan(s.workers[w]) {
    }
  }
}
