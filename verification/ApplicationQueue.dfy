/**
 * The application work queue: a list of requests shared by any number of
 * worker threads and any number of threads that add requests.  Requests with
 * the same non-zero thread group are carried out one at a time.
 *
 * Each critical section is one atomic step.  A pointer to a usage record is a
 * reference into an explicit store, so that `delete` and a dangling pointer
 * can be expressed.  The store answers an allocation with any reference that
 * is not in use.
 */
module ApplicationQueue {
  import opened Sequences

  type Group = nat   // 0: the request is not related to any other
  type Ref = nat

  datatype Request = Request(id: nat, group: Group)
  datatype UsageRec = UsageRec(group: Group, running: bool, outstanding: int)
  datatype WorkRec = WorkRec(req: Request, usage: Option<Ref>)

  /** The state that the mutexes protect. */
  datatype Shared = Shared(
    queue: seq<WorkRec>,
    usageMap: map<Group, Ref>,
    store: map<Ref, UsageRec>,
    shutdown: bool)

  // ----- Critical sections, as functions of the shared state -----

  /** First half of `add`: find or create the usage record of the group. */
  function Attach(s: Shared, req: Request, addr: Ref): (Shared, WorkRec) {
    if req.group == 0 then
      (s, WorkRec(req, None))
    else if req.group in s.usageMap then
      var r := s.usageMap[req.group];
      (if r in s.store then s.(store := s.store[r := s.store[r].(outstanding := s.store[r].outstanding + 1)]) else s,
       WorkRec(req, Some(r)))
    else
      (s.(usageMap := s.usageMap[req.group := addr], store := s.store[addr := UsageRec(req.group, false, 1)]),
       WorkRec(req, Some(addr)))
  }

  predicate Runnable(rec: WorkRec, store: map<Ref, UsageRec>) {
    rec.usage.None? || (rec.usage.value in store && !store[rec.usage.value].running)
  }

  /** The position of the first runnable request at or after `from`, or the length of the queue. */
  function FirstRunnable(queue: seq<WorkRec>, store: map<Ref, UsageRec>, from: nat): (i: nat)
    requires from <= |queue|
    ensures from <= i <= |queue|
    ensures forall j :: from <= j < i ==> !Runnable(queue[j], store)
    ensures i < |queue| ==> Runnable(queue[i], store)
    decreases |queue| - from
  {
    if from == |queue| || Runnable(queue[from], store) then from
    else FirstRunnable(queue, store, from + 1)
  }

  function SetRunning(store: map<Ref, UsageRec>, usage: Option<Ref>, b: bool): map<Ref, UsageRec> {
    if usage.Some? && usage.value in store
    then store[usage.value := store[usage.value].(running := b)]
    else store
  }

  /** The scan takes the request at position `i` and marks its group as running. */
  function Take(s: Shared, i: nat): Shared
    requires i < |s.queue|
  {
    s.(queue := s.queue[..i] + s.queue[i + 1..],
       store := SetRunning(s.store, s.queue[i].usage, true))
  }

  /** After the handler has run: clear the flag, drop one reference, free the record with the last one. */
  function Finish(s: Shared, rec: WorkRec): Shared {
    if rec.usage.None? || rec.usage.value !in s.store then s
    else
      var r := rec.usage.value;
      var u := s.store[r].(running := false, outstanding := s.store[r].outstanding - 1);
      if u.outstanding == 0 then
        s.(usageMap := s.usageMap - {u.group}, store := s.store - {r})
      else
        s.(store := s.store[r := u])
  }

  // ----- The same critical sections, as the program carries them out -----

  /** The record whose fields the critical sections update. */
  class ApplicationQueueState {
    var queue: seq<WorkRec>
    var usageMap: map<Group, Ref>
    var store: map<Ref, UsageRec>
    var shutdown: bool

    ghost function Value(): Shared
      reads this
    {
      Shared(queue, usageMap, store, shutdown)
    }

    constructor ()
      ensures Value() == Shared([], map[], map[], false)
    {
      queue, usageMap, store, shutdown := [], map[], map[], false;
    }

    /** `addr` is the address the allocator returns. */
    method AddUsage(req: Request, addr: Ref) returns (rec: WorkRec)
      requires forall g :: g in usageMap ==> usageMap[g] in store
      requires addr !in store
      modifies this
      ensures (Value(), rec) == Attach(old(Value()), req, addr)
    {
      rec := WorkRec(req, None);
      if req.group != 0 {
        if req.group in usageMap {
          var r := usageMap[req.group];
          rec := rec.(usage := Some(r));
          store := store[r := store[r].(outstanding := store[r].outstanding + 1)];
        } else {
          store := store[addr := UsageRec(req.group, false, 1)];
          rec := rec.(usage := Some(addr));
          usageMap := usageMap[req.group := addr];
        }
      }
    }

    method Push(rec: WorkRec)
      modifies this
      ensures Value() == old(Value()).(queue := old(queue) + [rec])
    {
      queue := queue + [rec];
    }

    /** The search loop of a worker; the caller has found the queue to be non-empty. */
    method Scan() returns (rec: Option<WorkRec>)
      requires forall i :: 0 <= i < |queue| && queue[i].usage.Some? ==> queue[i].usage.value in store
      modifies this
      ensures
        var i := FirstRunnable(old(queue), old(store), 0);
        if i < |old(queue)|
        then rec == Some(old(queue)[i]) && Value() == Take(old(Value()), i)
        else rec == None && Value() == old(Value())
    {
      rec := None;
      var iter := 0;
      while iter < |queue|
        invariant iter <= |queue| && rec == None
        invariant Value() == old(Value())
        invariant FirstRunnable(queue, store, 0) == FirstRunnable(queue, store, iter)
      {
        var r := queue[iter];
        if r.usage.None? || !store[r.usage.value].running {
          if r.usage.Some? {
            store := store[r.usage.value := store[r.usage.value].(running := true)];
          }
          queue := queue[..iter] + queue[iter + 1..];
          rec := Some(r);
          return;
        }
        iter := iter + 1;
      }
    }

    method Complete(rec: WorkRec)
      requires rec.usage.Some? ==> rec.usage.value in store
      modifies this
      ensures Value() == Finish(old(Value()), rec)
    {
      if rec.usage.Some? {
        var r := rec.usage.value;
        store := store[r := store[r].(running := false)];
        store := store[r := store[r].(outstanding := store[r].outstanding - 1)];
        if store[r].outstanding == 0 {
          usageMap := usageMap - {store[r].group};
          store := store - {r};
        }
      }
    }

    method Shutdown()
      modifies this
      ensures Value() == old(Value()).(shutdown := true)
    {
      shutdown := true;
    }
  }

  // ----- All interleavings -----

  /**
   * Where a worker is.  `Missed`: its scan found nothing runnable and it is
   * about to test the shutdown flag; other critical sections may fall in
   * between.  `Waiting`: it waits on the condition after a missed scan.  A
   * worker that waits on an empty queue re-tests everything when it wakes up,
   * so it is `Idle`.
   */
  datatype Worker = Idle | Missed | Waiting | Running(rec: WorkRec) | Exited

  /**
   * The whole system, with histories: what was pushed, started and completed,
   * and in `served` how much had been pushed when last some worker was still
   * to scan again.
   */
  datatype System = System(
    sh: Shared,
    workers: seq<Worker>,
    half: seq<WorkRec>,
    pushed: seq<WorkRec>,
    started: seq<WorkRec>,
    completed: seq<WorkRec>,
    served: nat)

  datatype Step =
    | Begin(req: Request, addr: Ref)  // first half of add
    | Push(i: nat)                     // second half of add
    | Scan(w: nat)
    | Leave(w: nat)                    // lines 113 to 116, after a missed scan
    | Wake(w: nat)
    | Complete(w: nat)
    | Shutdown

  function Init(n: nat): System {
    System(Shared([], map[], map[], false), seq(n, _ => Idle), [], [], [], [], 0)
  }

  predicate WillScan(w: Worker) { w.Idle? || w.Running? }

  ghost predicate Active(s: System) {
    exists w :: 0 <= w < |s.workers| && WillScan(s.workers[w])
  }

  predicate Enabled(s: System, step: Step) {
    match step
    case Begin(_, addr) => addr !in s.sh.store
    case Push(i) => i < |s.half|
    case Scan(w) => w < |s.workers| && s.workers[w].Idle?
    case Leave(w) => w < |s.workers| && s.workers[w].Missed?
    case Wake(w) => w < |s.workers| && s.workers[w].Waiting?
    case Complete(w) => w < |s.workers| && s.workers[w].Running?
    case Shutdown => true
  }

  ghost function Apply(s: System, step: Step): System
    requires Enabled(s, step)
  {
    match step
    case Begin(req, addr) =>
      var (sh, rec) := Attach(s.sh, req, addr);
      s.(sh := sh, half := s.half + [rec])
    case Push(i) =>
      var rec := s.half[i];
      s.(sh := s.sh.(queue := s.sh.queue + [rec]),
         half := s.half[..i] + s.half[i + 1..],
         pushed := s.pushed + [rec],
         served := if Active(s) then |s.pushed| + 1 else s.served)
    case Scan(w) =>
      if s.sh.queue == [] then
        if s.sh.shutdown then s.(workers := s.workers[w := Exited]) else s
      else
        var i := FirstRunnable(s.sh.queue, s.sh.store, 0);
        if i < |s.sh.queue| then
          s.(sh := Take(s.sh, i),
             workers := s.workers[w := Running(s.sh.queue[i])],
             started := s.started + [s.sh.queue[i]])
        else
          s.(workers := s.workers[w := Missed])
    case Leave(w) =>
      s.(workers := s.workers[w := if s.sh.shutdown then Exited else Waiting])
    case Wake(w) =>
      s.(workers := s.workers[w := if s.sh.shutdown then Exited else Idle])
    case Complete(w) =>
      s.(sh := Finish(s.sh, s.workers[w].rec),
         workers := s.workers[w := Idle],
         completed := s.completed + [s.workers[w].rec])
    case Shutdown =>
      s.(sh := s.sh.(shutdown := true))
  }

  /** `t` is reached from `s` by taking `steps` one after the other. */
  ghost predicate Reaches(s: System, steps: seq<Step>, t: System)
    decreases |steps|
  {
    if steps == [] then s == t
    else Enabled(s, steps[0]) && Reaches(Apply(s, steps[0]), steps[1..], t)
  }

  // ----- The invariant -----

  ghost function InGroup(g: Group): WorkRec -> bool { (rec: WorkRec) => rec.req.group == g }

  ghost function Runs(p: WorkRec -> bool): Worker -> bool { (w: Worker) => w.Running? && p(w.rec) }

  /** The number of requests of group `g` that are queued, half added or running. */
  ghost function Outstanding(s: System, g: Group): nat {
    Count(s.sh.queue, InGroup(g)) + Count(s.half, InGroup(g)) + Count(s.workers, Runs(InGroup(g)))
  }

  /** The usage map and the store are inverse to each other: nothing dangles and nothing leaks. */
  ghost predicate StoreOk(sh: Shared) {
    && (forall g :: g in sh.usageMap ==> g != 0 && sh.usageMap[g] in sh.store && sh.store[sh.usageMap[g]].group == g)
    && (forall r :: r in sh.store ==> sh.store[r].group in sh.usageMap && sh.usageMap[sh.store[r].group] == r)
  }

  /** A request points at the live usage record of its group, or at none if it has no group. */
  ghost predicate RecOk(rec: WorkRec, sh: Shared) {
    if rec.req.group == 0 then rec.usage == None
    else rec.req.group in sh.usageMap && rec.usage == Some(sh.usageMap[rec.req.group])
  }

  ghost predicate RecsOk(s: System) {
    && (forall i :: 0 <= i < |s.sh.queue| ==> RecOk(s.sh.queue[i], s.sh))
    && (forall i :: 0 <= i < |s.half| ==> RecOk(s.half[i], s.sh))
    && (forall w :: 0 <= w < |s.workers| && s.workers[w].Running? ==> RecOk(s.workers[w].rec, s.sh))
  }

  ghost predicate Accounted(s: System, g: Group)
    requires StoreOk(s.sh)
  {
    && (g in s.sh.usageMap <==> Outstanding(s, g) > 0)
    && (g in s.sh.usageMap ==>
          var u := s.sh.store[s.sh.usageMap[g]];
          && u.outstanding == Outstanding(s, g)
          && Count(s.workers, Runs(InGroup(g))) == B(u.running))
  }

  /** In group `g` what has started is what was pushed, in order, without what is still queued. */
  ghost predicate InOrder(s: System, g: Group) {
    Filter(s.started, InGroup(g)) + Filter(s.sh.queue, InGroup(g)) == Filter(s.pushed, InGroup(g))
  }

  /** A request of group `g` has completed before the next one of the group starts. */
  ghost predicate OneByOne(s: System, g: Group) {
    && (Count(s.workers, Runs(InGroup(g))) == 0 ==>
          Filter(s.completed, InGroup(g)) == Filter(s.started, InGroup(g)))
    && (forall w :: 0 <= w < |s.workers| && s.workers[w].Running? && s.workers[w].rec.req.group == g ==>
          Filter(s.started, InGroup(g)) == Filter(s.completed, InGroup(g)) + [s.workers[w].rec])
  }

  /** Each request is as often pushed as it is queued, running or completed. */
  ghost predicate Conserved(s: System, rec: WorkRec) {
    Count(s.pushed, Is(rec)) ==
      Count(s.sh.queue, Is(rec)) + Count(s.workers, Runs(Is(rec))) + Count(s.completed, Is(rec))
  }

  /** A queue with requests has a worker that will scan it, unless they came after the last such worker. */
  ghost predicate Draining(s: System) {
    && s.served <= |s.pushed|
    && (!s.sh.shutdown ==> Active(s))
    && (Active(s) ==> s.served == |s.pushed|)
    && (!Active(s) ==> s.sh.queue == s.pushed[s.served..])
  }

  ghost predicate Inv(s: System) {
    && StoreOk(s.sh)
    && RecsOk(s)
    && (forall g: Group :: g != 0 ==> Accounted(s, g))
    && (forall g: Group :: InOrder(s, g))
    && (forall g: Group :: g != 0 ==> OneByOne(s, g))
    && (forall rec :: Conserved(s, rec))
    && Draining(s)
  }

  lemma InitOk(n: nat)
    requires n > 0
    ensures Inv(Init(n))
  {
    var s := Init(n);
    assert WillScan(s.workers[0]);
    forall p: WorkRec -> bool ensures Count(s.workers, Runs(p)) == 0 {
      CountNone(s.workers, Runs(p));
    }
  }

  lemma BeginStore(s: System, req: Request, addr: Ref)
    requires StoreOk(s.sh) && RecsOk(s) && addr !in s.sh.store
    ensures StoreOk(Apply(s, Begin(req, addr)).sh) && RecsOk(Apply(s, Begin(req, addr)))
  {
    var t := Apply(s, Begin(req, addr));
    var rec := Attach(s.sh, req, addr).1;
    assert RecOk(rec, t.sh);
    assert forall r :: RecOk(r, s.sh) ==> RecOk(r, t.sh);
  }

  lemma BeginAccounted(s: System, req: Request, addr: Ref, g: Group)
    requires StoreOk(s.sh) && addr !in s.sh.store && g != 0 && Accounted(s, g)
    requires StoreOk(Apply(s, Begin(req, addr)).sh)
    ensures Accounted(Apply(s, Begin(req, addr)), g)
  {
    CountSnoc(s.half, Attach(s.sh, req, addr).1, InGroup(g));
  }

  lemma BeginOk(s: System, req: Request, addr: Ref)
    requires Inv(s) && Enabled(s, Begin(req, addr))
    ensures Inv(Apply(s, Begin(req, addr)))
  {
    var t := Apply(s, Begin(req, addr));
    BeginStore(s, req, addr);
    forall g: Group | g != 0 ensures Accounted(t, g) && OneByOne(t, g) {
      assert Accounted(s, g) && OneByOne(s, g);
      BeginAccounted(s, req, addr, g);
    }
    forall g: Group ensures InOrder(t, g) {
      assert InOrder(s, g);
    }
    forall r ensures Conserved(t, r) {
      assert Conserved(s, r);
    }
  }

  lemma PushInOrder(s: System, rec: WorkRec, g: Group)
    requires forall g: Group :: InOrder(s, g)
    ensures InOrder(s.(sh := s.sh.(queue := s.sh.queue + [rec]), pushed := s.pushed + [rec]), g)
  {
    hide Filter;
    assert InOrder(s, g);
    FilterSnoc(s.sh.queue, rec, InGroup(g));
    FilterSnoc(s.pushed, rec, InGroup(g));
    Assoc(Filter(s.started, InGroup(g)), Filter(s.sh.queue, InGroup(g)), [rec]);
  }

  lemma PushOk(s: System, i: nat)
    requires Inv(s) && Enabled(s, Push(i))
    ensures Inv(Apply(s, Push(i)))
  {
    var t := Apply(s, Push(i));
    var rec := s.half[i];
    forall g: Group | g != 0 ensures Accounted(t, g) {
      CountSnoc(s.sh.queue, rec, InGroup(g));
      CountRemove(s.half, i, InGroup(g));
      assert Accounted(s, g);
    }
    forall g: Group ensures InOrder(t, g) {
      PushInOrder(s, rec, g);
    }
    forall g: Group | g != 0 ensures OneByOne(t, g) {
      assert OneByOne(s, g);
    }
    forall r ensures Conserved(t, r) {
      assert Conserved(s, r);
      CountSnoc(s.sh.queue, rec, Is(r));
      CountSnoc(s.pushed, rec, Is(r));
    }
    assert Active(t) == Active(s);
  }

  /** A worker that moves without starting or completing a request changes no count. */
  lemma MoveOk(s: System, w: nat, to: Worker)
    requires Inv(s) && w < |s.workers| && !s.workers[w].Running? && !to.Running?
    requires Draining(s.(workers := s.workers[w := to]))
    ensures Inv(s.(workers := s.workers[w := to]))
  {
    var t := s.(workers := s.workers[w := to]);
    forall g: Group | g != 0 ensures Accounted(t, g) && OneByOne(t, g) {
      assert Accounted(s, g) && OneByOne(s, g);
      CountUpdate(s.workers, w, to, Runs(InGroup(g)));
    }
    forall g: Group ensures InOrder(t, g) {
      assert InOrder(s, g);
    }
    forall r ensures Conserved(t, r) {
      assert Conserved(s, r);
      CountUpdate(s.workers, w, to, Runs(Is(r)));
    }
  }

  /** A queued request that is not runnable belongs to a group that some worker is running. */
  lemma BlockedByWorker(s: System, i: nat) returns (w: nat)
    requires Inv(s) && i < |s.sh.queue| && !Runnable(s.sh.queue[i], s.sh.store)
    ensures s.sh.queue[i].req.group != 0
    ensures w < |s.workers| && s.workers[w].Running? && s.workers[w].rec.req.group == s.sh.queue[i].req.group
  {
    var g := s.sh.queue[i].req.group;
    assert RecOk(s.sh.queue[i], s.sh);
    assert Accounted(s, g);
    w := CountWitness(s.workers, Runs(InGroup(g)));
  }

  lemma TakeStore(s: System, w: nat, i: nat)
    requires StoreOk(s.sh) && RecsOk(s) && w < |s.workers| && i < |s.sh.queue|
    ensures
      var t := s.(sh := Take(s.sh, i), workers := s.workers[w := Running(s.sh.queue[i])]);
      StoreOk(t.sh) && RecsOk(t)
  {
    var sh' := Take(s.sh, i);
    assert RecOk(s.sh.queue[i], s.sh);
    assert forall r :: RecOk(r, s.sh) ==> RecOk(r, sh');
  }

  lemma TakeAccounted(s: System, w: nat, i: nat, g: Group)
    requires StoreOk(s.sh) && RecsOk(s) && w < |s.workers| && s.workers[w].Idle?
    requires i < |s.sh.queue| && Runnable(s.sh.queue[i], s.sh.store)
    requires g != 0 && Accounted(s, g)
    requires StoreOk(Take(s.sh, i))
    ensures Accounted(s.(sh := Take(s.sh, i), workers := s.workers[w := Running(s.sh.queue[i])]), g)
  {
    assert RecOk(s.sh.queue[i], s.sh);
    CountRemove(s.sh.queue, i, InGroup(g));
    CountUpdate(s.workers, w, Running(s.sh.queue[i]), Runs(InGroup(g)));
  }

  /** Taking the first element of a kind out of the queue and starting it keeps the order of the kind. */
  lemma TakeKeepsOrder(started: seq<WorkRec>, q: seq<WorkRec>, pushed: seq<WorkRec>, i: nat, p: WorkRec -> bool)
    requires Filter(started, p) + Filter(q, p) == Filter(pushed, p)
    requires i < |q| && (p(q[i]) ==> forall j :: 0 <= j < i ==> !p(q[j]))
    ensures Filter(started + [q[i]], p) + Filter(q[..i] + q[i + 1..], p) == Filter(pushed, p)
  {
    hide Filter;
    FilterSnoc(started, q[i], p);
    if p(q[i]) {
      FilterRemoveFirst(q, i, p);
      Assoc(Filter(started, p), [q[i]], Filter(q[..i] + q[i + 1..], p));
    } else {
      FilterRemoveOther(q, i, p);
    }
  }

  /** Of its group, the taken request is the first in the queue. */
  lemma TakeInOrder(s: System, w: nat, i: nat, g: Group)
    requires Inv(s) && Enabled(s, Scan(w)) && i == FirstRunnable(s.sh.queue, s.sh.store, 0) < |s.sh.queue|
    ensures InOrder(Apply(s, Scan(w)), g)
  {
    var q := s.sh.queue;
    assert InOrder(s, g);
    if q[i].req.group == g {
      forall j | 0 <= j < i ensures !InGroup(g)(q[j]) {
        assert !Runnable(q[j], s.sh.store);
        assert RecOk(q[j], s.sh) && RecOk(q[i], s.sh);
      }
    }
    TakeKeepsOrder(s.started, q, s.pushed, i, InGroup(g));
  }

  lemma TakeOneByOne(s: System, w: nat, i: nat, g: Group)
    requires Inv(s) && Enabled(s, Scan(w)) && i == FirstRunnable(s.sh.queue, s.sh.store, 0) < |s.sh.queue|
    requires g != 0
    ensures OneByOne(Apply(s, Scan(w)), g)
  {
    var q := s.sh.queue;
    var ws := s.workers[w := Running(q[i])];
    assert Accounted(s, g) && OneByOne(s, g) && RecOk(q[i], s.sh);
    FilterConcat(s.started, [q[i]], InGroup(g));
    CountUpdate(s.workers, w, Running(q[i]), Runs(InGroup(g)));
    if q[i].req.group == g {
      assert Count(s.workers, Runs(InGroup(g))) == 0;
      assert forall v :: 0 <= v < |ws| && ws[v].Running? && ws[v].rec.req.group == g ==> v == w;
    } else {
      assert Filter([q[i]], InGroup(g)) == [];
    }
  }

  lemma ScanTakeOk(s: System, w: nat)
    requires Inv(s) && Enabled(s, Scan(w)) && FirstRunnable(s.sh.queue, s.sh.store, 0) < |s.sh.queue|
    ensures Inv(Apply(s, Scan(w)))
  {
    var t := Apply(s, Scan(w));
    var i := FirstRunnable(s.sh.queue, s.sh.store, 0);
    TakeStore(s, w, i);
    forall g: Group | g != 0 ensures Accounted(t, g) && OneByOne(t, g) {
      assert Accounted(s, g);
      TakeAccounted(s, w, i, g);
      TakeOneByOne(s, w, i, g);
    }
    forall g: Group ensures InOrder(t, g) {
      TakeInOrder(s, w, i, g);
    }
    forall r ensures Conserved(t, r) {
      assert Conserved(s, r);
      CountRemove(s.sh.queue, i, Is(r));
      CountUpdate(s.workers, w, Running(s.sh.queue[i]), Runs(Is(r)));
    }
    assert WillScan(s.workers[w]) && WillScan(t.workers[w]);
  }

  /** A worker misses only while another worker is running a request. */
  lemma ScanMissOk(s: System, w: nat)
    requires Inv(s) && Enabled(s, Scan(w)) && s.sh.queue != []
    requires FirstRunnable(s.sh.queue, s.sh.store, 0) == |s.sh.queue|
    ensures Inv(Apply(s, Scan(w)))
  {
    var t := Apply(s, Scan(w));
    var v := BlockedByWorker(s, 0);
    assert WillScan(s.workers[w]) && WillScan(t.workers[v]);
    MoveOk(s, w, Missed);
  }

  lemma ScanOk(s: System, w: nat)
    requires Inv(s) && Enabled(s, Scan(w))
    ensures Inv(Apply(s, Scan(w)))
  {
    if s.sh.queue == [] {
      if s.sh.shutdown {
        assert WillScan(s.workers[w]);
        MoveOk(s, w, Exited);
      }
    } else if FirstRunnable(s.sh.queue, s.sh.store, 0) < |s.sh.queue| {
      ScanTakeOk(s, w);
    } else {
      ScanMissOk(s, w);
    }
  }

  lemma SameActive(s: System, w: nat, to: Worker)
    requires w < |s.workers| && !WillScan(s.workers[w]) && !WillScan(to)
    ensures Active(s.(workers := s.workers[w := to])) == Active(s)
  {
    var t := s.(workers := s.workers[w := to]);
    if Active(s) {
      var v :| 0 <= v < |s.workers| && WillScan(s.workers[v]);
      assert WillScan(t.workers[v]);
    }
    if Active(t) {
      var v :| 0 <= v < |t.workers| && WillScan(t.workers[v]);
      assert WillScan(s.workers[v]);
    }
  }

  lemma LeaveWakeOk(s: System, step: Step)
    requires Inv(s) && (step.Leave? || step.Wake?) && Enabled(s, step)
    ensures Inv(Apply(s, step))
  {
    var to := if s.sh.shutdown then Exited else if step.Leave? then Waiting else Idle;
    if to.Idle? {
      assert WillScan(s.workers[step.w := to][step.w]);
    } else {
      SameActive(s, step.w, to);
    }
    MoveOk(s, step.w, to);
  }

  lemma FinishStore(s: System, w: nat)
    requires StoreOk(s.sh) && RecsOk(s) && Enabled(s, Complete(w))
    requires forall g: Group :: g != 0 ==> Accounted(s, g)
    ensures StoreOk(Apply(s, Complete(w)).sh) && RecsOk(Apply(s, Complete(w)))
  {
    var rec := s.workers[w].rec;
    var t := Apply(s, Complete(w));
    assert RecOk(rec, s.sh);
    var g := rec.req.group;
    if g != 0 {
      assert Accounted(s, g);
      if s.sh.store[rec.usage.value].outstanding == 1 {
        CountRemove(s.workers, w, Runs(InGroup(g)));
        forall i | 0 <= i < |s.sh.queue| ensures RecOk(s.sh.queue[i], t.sh) {
          if s.sh.queue[i].req.group == g { CountOne(s.sh.queue, i, InGroup(g)); }
        }
        forall i | 0 <= i < |s.half| ensures RecOk(s.half[i], t.sh) {
          if s.half[i].req.group == g { CountOne(s.half, i, InGroup(g)); }
        }
        forall v | 0 <= v < |t.workers| && t.workers[v].Running? ensures RecOk(t.workers[v].rec, t.sh) {
          if t.workers[v].rec.req.group == g {
            CountUpdate(s.workers, w, Idle, Runs(InGroup(g)));
            CountOne(t.workers, v, Runs(InGroup(g)));
          }
        }
      }
    }
  }

  lemma FinishAccounted(s: System, w: nat, g: Group)
    requires StoreOk(s.sh) && RecsOk(s) && Enabled(s, Complete(w))
    requires g != 0 && Accounted(s, g)
    requires StoreOk(Apply(s, Complete(w)).sh)
    ensures Accounted(Apply(s, Complete(w)), g)
  {
    assert RecOk(s.workers[w].rec, s.sh);
    CountUpdate(s.workers, w, Idle, Runs(InGroup(g)));
    if s.workers[w].rec.req.group == g {
      CountOne(s.workers, w, Runs(InGroup(g)));
    }
  }

  lemma FinishOneByOne(s: System, w: nat, g: Group)
    requires Inv(s) && Enabled(s, Complete(w)) && g != 0
    ensures OneByOne(Apply(s, Complete(w)), g)
  {
    var rec := s.workers[w].rec;
    var t := Apply(s, Complete(w));
    assert Accounted(s, g) && OneByOne(s, g) && RecOk(rec, s.sh);
    FilterConcat(s.completed, [rec], InGroup(g));
    CountUpdate(s.workers, w, Idle, Runs(InGroup(g)));
    if rec.req.group == g {
      CountOne(s.workers, w, Runs(InGroup(g)));
      forall v | 0 <= v < |t.workers| && t.workers[v].Running? ensures t.workers[v].rec.req.group != g {
        if t.workers[v].rec.req.group == g { CountOne(t.workers, v, Runs(InGroup(g))); }
      }
    } else {
      assert Filter([rec], InGroup(g)) == [];
    }
  }

  lemma CompleteOk(s: System, w: nat)
    requires Inv(s) && Enabled(s, Complete(w))
    ensures Inv(Apply(s, Complete(w)))
  {
    var t := Apply(s, Complete(w));
    FinishStore(s, w);
    forall g: Group | g != 0 ensures Accounted(t, g) && OneByOne(t, g) {
      assert Accounted(s, g);
      FinishAccounted(s, w, g);
      FinishOneByOne(s, w, g);
    }
    forall g: Group ensures InOrder(t, g) {
      assert InOrder(s, g);
    }
    forall r ensures Conserved(t, r) {
      assert Conserved(s, r);
      CountUpdate(s.workers, w, Idle, Runs(Is(r)));
      CountSnoc(s.completed, s.workers[w].rec, Is(r));
    }
    assert WillScan(s.workers[w]) && WillScan(t.workers[w]);
  }

  lemma ShutdownOk(s: System)
    requires Inv(s)
    ensures Inv(Apply(s, Shutdown))
  {
    var t := Apply(s, Shutdown);
    assert Active(t) == Active(s);
    forall g: Group ensures InOrder(t, g) && (g != 0 ==> Accounted(t, g) && OneByOne(t, g)) {
      assert InOrder(s, g) && (g != 0 ==> Accounted(s, g) && OneByOne(s, g));
    }
    forall r ensures Conserved(t, r) {
      assert Conserved(s, r);
    }
    forall i | 0 <= i < |t.sh.queue| ensures RecOk(t.sh.queue[i], t.sh) {
      assert RecOk(s.sh.queue[i], s.sh);
    }
  }

  lemma StepOk(s: System, step: Step)
    requires Inv(s) && Enabled(s, step)
    ensures Inv(Apply(s, step))
  {
    match step
    case Begin(req, addr) => BeginOk(s, req, addr);
    case Push(i) => PushOk(s, i);
    case Scan(w) => ScanOk(s, w);
    case Leave(w) => LeaveWakeOk(s, step);
    case Wake(w) => LeaveWakeOk(s, step);
    case Complete(w) => CompleteOk(s, w);
    case Shutdown => ShutdownOk(s);
  }

  // ----- What holds in every run -----

  lemma {:induction false} RunOk(s: System, steps: seq<Step>, t: System)
    requires Inv(s) && Reaches(s, steps, t)
    ensures Inv(t) && |t.workers| == |s.workers|
    decreases |steps|
  {
    if steps != [] {
      StepOk(s, steps[0]);
      RunOk(Apply(s, steps[0]), steps[1..], t);
    }
  }

  /** At most one request of a thread group runs at a time. */
  lemma GroupRunsAlone(n: nat, steps: seq<Step>, t: System, v: nat, w: nat)
    requires n > 0 && Reaches(Init(n), steps, t)
    requires v < |t.workers| && w < |t.workers| && t.workers[v].Running? && t.workers[w].Running?
    requires t.workers[v].rec.req.group == t.workers[w].rec.req.group != 0
    ensures v == w
  {
    InitOk(n);
    RunOk(Init(n), steps, t);
    var g := t.workers[v].rec.req.group;
    assert Accounted(t, g);
    if v != w {
      CountTwo(t.workers, if v < w then v else w, if v < w then w else v, Runs(InGroup(g)));
    }
  }

  /**
   * The requests of a thread group are started in the order in which they were
   * pushed, none skipped and none twice, and each has completed before the
   * next one starts.
   */
  lemma GroupRunsInOrder(n: nat, steps: seq<Step>, t: System, g: Group)
    requires n > 0 && Reaches(Init(n), steps, t)
    ensures Filter(t.started, InGroup(g)) <= Filter(t.pushed, InGroup(g))
    ensures g != 0 ==> Filter(t.completed, InGroup(g)) <= Filter(t.started, InGroup(g))
    ensures g != 0 ==> |Filter(t.started, InGroup(g))| <= |Filter(t.completed, InGroup(g))| + 1
  {
    InitOk(n);
    RunOk(Init(n), steps, t);
    assert InOrder(t, g);
    if g != 0 {
      assert OneByOne(t, g);
      if Count(t.workers, Runs(InGroup(g))) > 0 {
        var w := CountWitness(t.workers, Runs(InGroup(g)));
        assert t.workers[w].rec.req.group == g;
      }
    }
  }

  /** A scan passes over a request only while another worker runs a request of the same group. */
  lemma SkippedGroupIsRunning(n: nat, steps: seq<Step>, t: System, w: nat, j: nat) returns (v: nat)
    requires n > 0 && Reaches(Init(n), steps, t) && Enabled(t, Scan(w))
    requires j < FirstRunnable(t.sh.queue, t.sh.store, 0)
    ensures t.sh.queue[j].req.group != 0
    ensures v < |t.workers| && v != w && t.workers[v].Running?
    ensures t.workers[v].rec.req.group == t.sh.queue[j].req.group
  {
    InitOk(n);
    RunOk(Init(n), steps, t);
    v := BlockedByWorker(t, j);
  }

  /**
   * The usage map holds a group exactly while requests of the group are
   * queued, half added or running; `outstanding` is their number; and every
   * request that refers to a usage record refers to the live one of its group.
   */
  lemma UsageIsExact(n: nat, steps: seq<Step>, t: System, g: Group)
    requires n > 0 && Reaches(Init(n), steps, t) && g != 0
    ensures g in t.sh.usageMap <==> Outstanding(t, g) > 0
    ensures g in t.sh.usageMap ==> t.sh.usageMap[g] in t.sh.store &&
                                   t.sh.store[t.sh.usageMap[g]].outstanding == Outstanding(t, g)
    ensures |t.sh.store.Keys| == |t.sh.usageMap.Keys|
    ensures RecsOk(t)
  {
    InitOk(n);
    RunOk(Init(n), steps, t);
    assert Accounted(t, g);
    SameSize(t.sh.usageMap, t.sh.store);
  }

  /** Maps that invert each other have as many keys. */
  lemma {:induction false} SameSize(m: map<Group, Ref>, store: map<Ref, UsageRec>)
    requires forall g :: g in m ==> m[g] in store && store[m[g]].group == g
    requires forall r :: r in store ==> store[r].group in m && m[store[r].group] == r
    ensures |m.Keys| == |store.Keys|
    decreases |m|
  {
    if m.Keys != {} {
      var g :| g in m;
      var m', store' := m - {g}, store - {m[g]};
      SameSize(m', store');
      assert m.Keys == m'.Keys + {g} && store.Keys == store'.Keys + {m[g]};
    } else {
      assert store.Keys == {};
    }
  }

  /**
   * Shutdown drains the queue: once all workers have exited, each request that
   * was pushed while some worker was still to scan again has completed exactly
   * once, and what is left in the queue is exactly what was pushed later.
   */
  lemma ShutdownDrains(n: nat, steps: seq<Step>, t: System)
    requires n > 0 && Reaches(Init(n), steps, t)
    requires forall w :: 0 <= w < |t.workers| ==> t.workers[w].Exited?
    ensures t.served <= |t.pushed| && t.sh.queue == t.pushed[t.served..]
    ensures multiset(t.completed) == multiset(t.pushed[..t.served])
    ensures t.sh.queue == [] <==> t.served == |t.pushed|
  {
    hide StoreOk, RecsOk, Accounted, InOrder, OneByOne, Conserved;
    InitOk(n);
    RunOk(Init(n), steps, t);
    forall rec ensures multiset(t.completed)[rec] == multiset(t.pushed[..t.served])[rec] {
      assert Conserved(t, rec);
      CompletedOf(t, rec);
    }
  }

  lemma CompletedOf(t: System, rec: WorkRec)
    requires Conserved(t, rec) && t.served <= |t.pushed| && t.sh.queue == t.pushed[t.served..]
    requires forall w :: 0 <= w < |t.workers| ==> t.workers[w].Exited?
    ensures multiset(t.completed)[rec] == multiset(t.pushed[..t.served])[rec]
  {
    CountNone(t.workers, Runs(Is(rec)));
    CountConcat(t.pushed[..t.served], t.pushed[t.served..], Is(rec));
    assert t.pushed == t.pushed[..t.served] + t.pushed[t.served..];
    CountIsMultiplicity(t.completed, rec);
    CountIsMultiplicity(t.pushed[..t.served], rec);
  }

  /** Every push is made while some worker is idle or running. */
  ghost predicate PushedWhileActive(s: System, steps: seq<Step>)
    decreases |steps|
  {
    steps == [] ||
    (Enabled(s, steps[0]) && (steps[0].Push? ==> Active(s)) && PushedWhileActive(Apply(s, steps[0]), steps[1..]))
  }

  lemma ServedStep(s: System, step: Step)
    requires Inv(s) && Enabled(s, step)
    ensures var t := Apply(s, step);
            t.served == |t.pushed| <==> s.served == |s.pushed| && (step.Push? ==> Active(s))
  {
    hide Take, Finish, Attach;
  }

  lemma {:induction false} ServedExactly(s: System, steps: seq<Step>, t: System)
    requires Inv(s) && Reaches(s, steps, t)
    ensures t.served == |t.pushed| <==> s.served == |s.pushed| && PushedWhileActive(s, steps)
    decreases |steps|
  {
    hide Apply, Enabled, Inv;
    if steps != [] {
      ServedStep(s, steps[0]);
      StepOk(s, steps[0]);
      ServedExactly(Apply(s, steps[0]), steps[1..], t);
    }
  }

  /**
   * Once all workers have exited, nothing is left behind, and every request has
   * completed exactly once, exactly when every push was made while some worker
   * was idle or running.
   */
  lemma ShutdownDrainsExactly(n: nat, steps: seq<Step>, t: System)
    requires n > 0 && Reaches(Init(n), steps, t)
    requires forall w :: 0 <= w < |t.workers| ==> t.workers[w].Exited?
    ensures t.sh.queue == [] <==> PushedWhileActive(Init(n), steps)
    ensures t.sh.queue == [] ==> multiset(t.completed) == multiset(t.pushed)
  {
    hide Inv, PushedWhileActive;
    InitOk(n);
    ServedExactly(Init(n), steps, t);
    ShutdownDrains(n, steps, t);
    assert t.pushed[..|t.pushed|] == t.pushed;
  }

  /** No request is pushed after the shutdown flag has been set. */
  ghost predicate NoLatePush(s: System, steps: seq<Step>)
    decreases |steps|
  {
    steps == [] ||
    (Enabled(s, steps[0]) && !(s.sh.shutdown && steps[0].Push?) && NoLatePush(Apply(s, steps[0]), steps[1..]))
  }

  lemma {:induction false} NoLatePushServes(s: System, steps: seq<Step>, t: System)
    requires Inv(s) && s.served == |s.pushed| && Reaches(s, steps, t) && NoLatePush(s, steps)
    ensures t.served == |t.pushed|
    decreases |steps|
  {
    if steps != [] {
      StepOk(s, steps[0]);
      NoLatePushServes(Apply(s, steps[0]), steps[1..], t);
    }
  }

  /** In a run with no push after shutdown, nothing is left behind. */
  lemma ShutdownDrainsAll(n: nat, steps: seq<Step>, t: System)
    requires n > 0 && Reaches(Init(n), steps, t) && NoLatePush(Init(n), steps)
    requires forall w :: 0 <= w < |t.workers| ==> t.workers[w].Exited?
    ensures t.sh.queue == [] && multiset(t.completed) == multiset(t.pushed)
  {
    InitOk(n);
    NoLatePushServes(Init(n), steps, t);
    ShutdownDrains(n, steps, t);
    assert t.pushed[..t.served] == t.pushed;
  }

  /** With a push after shutdown a request can be left in the queue for ever: the worker has gone. */
  lemma LatePushIsStranded(req: Request) returns (steps: seq<Step>, t: System)
    ensures Reaches(Init(1), steps, t)
    ensures t.workers == [Exited] && |t.sh.queue| == 1 && t.sh.queue[0].req == req && t.completed == []
  {
    var s0 := Init(1);
    var s1 := Apply(s0, Begin(req, 0));
    var s2 := Apply(s1, Shutdown);
    var s3 := Apply(s2, Scan(0));
    t := Apply(s3, Push(0));
    assert Reaches(t, [], t);
    assert Reaches(s3, [Push(0)], t);
    assert Reaches(s2, [Scan(0), Push(0)], t);
    assert Reaches(s1, [Shutdown, Scan(0), Push(0)], t);
    steps := [Begin(req, 0), Shutdown, Scan(0), Push(0)];
    assert s0.workers == [Idle] && s3.workers == [Exited];
  }
}
