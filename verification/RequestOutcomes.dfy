/**
 * Whole runs of the reactor over the request cache: requests are added,
 * responses arrive, timeouts are drained and connections are closed, in any
 * order.  Every waiter is accounted for, and a response that arrives for a
 * request of a closed connection is the one way to hear twice.
 */
module RequestOutcomes {
  import opened Sequences
  import opened RequestCache

  /** What a waiter hears about its request. */
  datatype Outcome = Responded(dh: nat) | TimedOut(dh: nat) | Cancelled(dh: nat)

  /**
   * The cache, the waiters of all requests added so far, everything waiters
   * heard, and the waiters that got a response after a cancellation.
   */
  datatype Reactor = Reactor(cache: seq<Entry>, inserted: seq<nat>, outcomes: seq<Outcome>, late: seq<nat>)

  datatype Step =
    | Request(id: nat, handler: nat, dh: nat, expire: Time)
    | Response(id: nat)
    | Timeouts(now: Time)
    | Close(handler: nat)

  const Idle := Reactor([], [], [], [])

  /** Where the request with an id stands. */
  ghost function Position(c: seq<Entry>, id: nat): (k: nat)
    requires HasRequest(c, id)
    ensures k < |c| && c[k].id == id
  {
    var k: nat :| k < |c| && c[k].id == id;
    k
  }

  ghost function AllTimedOut(ws: seq<nat>): (r: seq<Outcome>) {
    if ws == [] then [] else [TimedOut(ws[0])] + AllTimedOut(ws[1..])
  }

  ghost function AllCancelled(ws: seq<nat>): (r: seq<Outcome>) {
    if ws == [] then [] else [Cancelled(ws[0])] + AllCancelled(ws[1..])
  }

  /** The connection behind a request or a closing is an object, never null. */
  predicate Possible(step: Step) {
    match step
    case Request(_, handler, _, _) => handler != 0
    case Close(handler) => handler != 0
    case _ => true
  }

  ghost function Answered(s: Reactor, k: nat): Reactor
    requires k < |s.cache|
  {
    var e := s.cache[k];
    s.(cache := Without(s.cache, e.id),
       outcomes := s.outcomes + [Responded(e.dh)],
       late := if e.handler == 0 then s.late + [e.dh] else s.late)
  }

  ghost function Next(s: Reactor, step: Step): Reactor {
    match step
    case Request(id, handler, dh, expire) =>
      if HasRequest(s.cache, id) then s
      else s.(cache := s.cache + [Entry(id, handler, dh, expire)], inserted := s.inserted + [dh])
    case Response(id) =>
      if HasRequest(s.cache, id) then Answered(s, Position(s.cache, id)) else s
    case Timeouts(now) =>
      s.(cache := DrainedRest(s.cache, now),
         outcomes := s.outcomes + AllTimedOut(DrainedWaiters(s.cache, now)))
    case Close(handler) =>
      s.(cache := Marked(s.cache, handler),
         outcomes := s.outcomes + AllCancelled(Waiting(s.cache, handler)))
  }

  ghost function Run(s: Reactor, steps: seq<Step>): Reactor
    decreases |steps|
  {
    if steps == [] then s else Run(Next(s, steps[0]), steps[1..])
  }

  // ----- Counting waiters -----

  ghost function LiveFor(d: nat): Entry -> bool { (e: Entry) => e.handler != 0 && e.dh == d }

  ghost function For(d: nat): Outcome -> bool { (o: Outcome) => o.dh == d }

  lemma {:induction false} CountTimedOut(ws: seq<nat>, d: nat)
    ensures Count(AllTimedOut(ws), For(d)) == Count(ws, Is(d))
  {
    if ws != [] {
      CountTimedOut(ws[1..], d);
      assert AllTimedOut(ws)[1..] == AllTimedOut(ws[1..]);
    }
  }

  lemma {:induction false} CountCancelled(ws: seq<nat>, d: nat)
    ensures Count(AllCancelled(ws), For(d)) == Count(ws, Is(d))
  {
    if ws != [] {
      CountCancelled(ws[1..], d);
      assert AllCancelled(ws)[1..] == AllCancelled(ws[1..]);
    }
  }

  lemma {:induction false} CountLiveWaiters(c: seq<Entry>, d: nat)
    ensures Count(LiveWaiters(c), Is(d)) == Count(c, LiveFor(d))
  {
    if c != [] {
      CountLiveWaiters(c[1..], d);
      if c[0].handler != 0 {
        assert LiveWaiters(c)[1..] == LiveWaiters(c[1..]);
      }
    }
  }

  /** A drain moves waiters from the cache to the timed out, and loses none. */
  lemma CountDrained(c: seq<Entry>, now: Time, d: nat)
    ensures Count(DrainedRest(c, now), LiveFor(d)) + Count(DrainedWaiters(c, now), Is(d)) == Count(c, LiveFor(d))
  {
    var n := LeadingExpired(c, now);
    CountLiveWaiters(c[..n], d);
    CountConcat(c[..n], c[n..], LiveFor(d));
    assert c == c[..n] + c[n..];
  }

  /** Closing a connection moves waiters from the live to the cancelled, and loses none. */
  lemma {:induction false} CountClosed(c: seq<Entry>, handler: nat, d: nat)
    requires handler != 0
    ensures Count(Marked(c, handler), LiveFor(d)) + Count(Waiting(c, handler), Is(d)) == Count(c, LiveFor(d))
  {
    if c != [] {
      CountClosed(c[1..], handler, d);
      assert Marked(c, handler)[1..] == Marked(c[1..], handler);
      if c[0].handler == handler {
        CountSnoc(Waiting(c[1..], handler), c[0].dh, Is(d));
      }
    }
  }

  // ----- Every waiter is accounted for -----

  /** Requests of a waiter plus responses that came too late = live requests plus what it heard. */
  ghost predicate Accounted(s: Reactor, d: nat) {
    Count(s.inserted, Is(d)) + Count(s.late, Is(d)) == Count(s.cache, LiveFor(d)) + Count(s.outcomes, For(d))
  }

  lemma RequestAccounted(s: Reactor, e: Entry, d: nat)
    requires Accounted(s, d) && e.handler != 0
    ensures Accounted(s.(cache := s.cache + [e], inserted := s.inserted + [e.dh]), d)
  {
    CountSnoc(s.inserted, e.dh, Is(d));
    CountSnoc(s.cache, e, LiveFor(d));
  }

  lemma AnswerAccounted(s: Reactor, k: nat, d: nat)
    requires Accounted(s, d) && DistinctIds(s.cache) && k < |s.cache|
    ensures Accounted(Answered(s, k), d)
  {
    var e := s.cache[k];
    WithoutAt(s.cache, k);
    CountRemove(s.cache, k, LiveFor(d));
    CountSnoc(s.outcomes, Responded(e.dh), For(d));
    CountSnoc(s.late, e.dh, Is(d));
  }

  lemma StepAccounted(s: Reactor, step: Step, d: nat)
    requires Accounted(s, d) && DistinctIds(s.cache) && Possible(step)
    ensures Accounted(Next(s, step), d)
  {
    hide DrainedRest, DrainedWaiters, Marked, Waiting, AllTimedOut, AllCancelled, DistinctIds, HasRequest;
    match step {
      case Request(id, handler, dh, expire) => RequestAccounted(s, Entry(id, handler, dh, expire), d);
      case Response(id) =>
        if HasRequest(s.cache, id) {
          AnswerAccounted(s, Position(s.cache, id), d);
        }
      case Timeouts(now) =>
        CountDrained(s.cache, now, d);
        CountTimedOut(DrainedWaiters(s.cache, now), d);
        CountConcat(s.outcomes, AllTimedOut(DrainedWaiters(s.cache, now)), For(d));
      case Close(handler) =>
        CountClosed(s.cache, handler, d);
        CountCancelled(Waiting(s.cache, handler), d);
        CountConcat(s.outcomes, AllCancelled(Waiting(s.cache, handler)), For(d));
    }
  }

  /** Taking requests out, or marking them, keeps an order on the ids and times of any two. */
  lemma WithoutKeeps(c: seq<Entry>, k: nat)
    requires k < |c|
    ensures DistinctIds(c) ==> DistinctIds(c[..k] + c[k + 1..])
    ensures forall bound :: Sorted(c, bound) ==> Sorted(c[..k] + c[k + 1..], bound)
  {
    var rest := c[..k] + c[k + 1..];
    assert forall i :: 0 <= i < |rest| ==> rest[i] == c[if i < k then i else i + 1];
  }

  lemma SuffixKeeps(c: seq<Entry>, n: nat)
    requires n <= |c|
    ensures DistinctIds(c) ==> DistinctIds(c[n..])
    ensures forall bound :: Sorted(c, bound) ==> Sorted(c[n..], bound)
  {
    assert forall i :: 0 <= i < |c[n..]| ==> c[n..][i] == c[n + i];
  }

  lemma DrainKeeps(c: seq<Entry>, now: Time)
    ensures DistinctIds(c) ==> DistinctIds(DrainedRest(c, now))
    ensures forall bound :: Sorted(c, bound) ==> Sorted(DrainedRest(c, now), bound)
  {
    hide LeadingExpired, DistinctIds, Sorted;
    SuffixKeeps(c, LeadingExpired(c, now));
  }

  lemma MarkKeeps(c: seq<Entry>, handler: nat)
    ensures DistinctIds(c) ==> DistinctIds(Marked(c, handler))
    ensures forall bound :: Sorted(c, bound) ==> Sorted(Marked(c, handler), bound)
  {
    hide Marked;
  }

  lemma AnswerKeeps(s: Reactor, k: nat)
    requires k < |s.cache| && DistinctIds(s.cache)
    ensures DistinctIds(Answered(s, k).cache)
    ensures forall bound :: Sorted(s.cache, bound) ==> Sorted(Answered(s, k).cache, bound)
  {
    hide DistinctIds, Sorted;
    WithoutAt(s.cache, k);
    WithoutKeeps(s.cache, k);
  }

  lemma StepDistinct(s: Reactor, step: Step)
    requires DistinctIds(s.cache)
    ensures DistinctIds(Next(s, step).cache)
  {
    hide Without, DrainedRest, Marked, Position;
    match step {
      case Request(id, handler, dh, expire) =>
      case Response(id) => if HasRequest(s.cache, id) { AnswerKeeps(s, Position(s.cache, id)); }
      case Timeouts(now) => DrainKeeps(s.cache, now);
      case Close(handler) => MarkKeeps(s.cache, handler);
    }
  }

  lemma {:induction false} RunAccounted(s: Reactor, steps: seq<Step>, d: nat)
    requires Accounted(s, d) && DistinctIds(s.cache)
    requires forall i :: 0 <= i < |steps| ==> Possible(steps[i])
    ensures Accounted(Run(s, steps), d) && DistinctIds(Run(s, steps).cache)
    decreases |steps|
  {
    hide Accounted, DistinctIds, Next;
    if steps != [] {
      StepAccounted(s, steps[0], d);
      StepDistinct(s, steps[0]);
      RunAccounted(Next(s, steps[0]), steps[1..], d);
    }
  }

  // ----- What is heard, and when -----

  lemma {:induction false} TimedOutAre(ws: seq<nat>, o: Outcome)
    ensures o in AllTimedOut(ws) <==> o.TimedOut? && o.dh in ws
  {
    if ws != [] {
      TimedOutAre(ws[1..], o);
    }
  }

  lemma {:induction false} CancelledAre(ws: seq<nat>, o: Outcome)
    ensures o in AllCancelled(ws) <==> o.Cancelled? && o.dh in ws
  {
    if ws != [] {
      CancelledAre(ws[1..], o);
    }
  }

  lemma {:induction false} LiveWaitersAre(c: seq<Entry>, d: nat)
    ensures d in LiveWaiters(c) <==> exists i :: 0 <= i < |c| && c[i].handler != 0 && c[i].dh == d
  {
    if c != [] {
      LiveWaitersAre(c[1..], d);
      if i :| 0 <= i < |c| && c[i].handler != 0 && c[i].dh == d {
        assert i > 0 ==> c[1..][i - 1] == c[i];
      }
      if i :| 0 <= i < |c[1..]| && c[1..][i].handler != 0 && c[1..][i].dh == d {
        assert c[i + 1].dh == d;
      }
    }
  }

  lemma {:induction false} WaitingAre(c: seq<Entry>, handler: nat, d: nat)
    ensures d in Waiting(c, handler) <==> exists i :: 0 <= i < |c| && c[i].handler == handler && c[i].dh == d
  {
    if c != [] {
      WaitingAre(c[1..], handler, d);
      if i :| 0 <= i < |c| && c[i].handler == handler && c[i].dh == d {
        assert i > 0 ==> c[1..][i - 1] == c[i];
      }
      if i :| 0 <= i < |c[1..]| && c[1..][i].handler == handler && c[1..][i].dh == d {
        assert c[i + 1].dh == d;
      }
    }
  }

  /** The newest request of a connection is told first. */
  lemma {:induction false} NewestFirst(a: seq<Entry>, b: seq<Entry>, handler: nat)
    ensures Waiting(a + b, handler) == Waiting(b, handler) + Waiting(a, handler)
  {
    if a == [] {
      assert a + b == b && Waiting(b, handler) + [] == Waiting(b, handler);
    } else {
      NewestFirst(a[1..], b, handler);
      assert (a + b)[1..] == a[1..] + b;
      Assoc(Waiting(b, handler), Waiting(a[1..], handler), [a[0].dh]);
    }
  }

  /** A drain tells of a timeout, and of nothing else, exactly those whose live request has expired at the head. */
  lemma TimeoutsTell(s: Reactor, now: Time, o: Outcome)
    ensures s.outcomes <= Next(s, Timeouts(now)).outcomes
    ensures o in Next(s, Timeouts(now)).outcomes[|s.outcomes|..] <==>
            o.TimedOut? && exists i :: 0 <= i < LeadingExpired(s.cache, now) &&
                                       s.cache[i].handler != 0 && s.cache[i].dh == o.dh
    ensures forall i :: 0 <= i < LeadingExpired(s.cache, now) ==> s.cache[i].expire <= now
  {
    hide LiveWaiters, AllTimedOut;
    var n := LeadingExpired(s.cache, now);
    var due := s.cache[..n];
    TimedOutAre(DrainedWaiters(s.cache, now), o);
    LiveWaitersAre(due, o.dh);
    assert forall i :: 0 <= i < n ==> due[i] == s.cache[i];
    var told := AllTimedOut(DrainedWaiters(s.cache, now));
    assert (s.outcomes + told)[|s.outcomes|..] == told;
  }

  /** Closing a connection tells exactly those with a request on it that it is cancelled. */
  lemma CloseTells(s: Reactor, handler: nat, o: Outcome)
    ensures s.outcomes <= Next(s, Close(handler)).outcomes
    ensures o in Next(s, Close(handler)).outcomes[|s.outcomes|..] <==>
            o.Cancelled? && exists i :: 0 <= i < |s.cache| && s.cache[i].handler == handler && s.cache[i].dh == o.dh
  {
    hide Waiting, AllCancelled, Marked;
    CancelledAre(Waiting(s.cache, handler), o);
    WaitingAre(s.cache, handler, o.dh);
    var told := AllCancelled(Waiting(s.cache, handler));
    assert (s.outcomes + told)[|s.outcomes|..] == told;
  }

  /** A response is told to the one that waits for its request, which is then forgotten; any other changes nothing. */
  lemma ResponseTells(s: Reactor, k: nat, id: nat)
    requires DistinctIds(s.cache)
    ensures k < |s.cache| && s.cache[k].id == id ==>
              var t := Next(s, Response(id));
              t.outcomes == s.outcomes + [Responded(s.cache[k].dh)] && t.cache == s.cache[..k] + s.cache[k + 1..]
    ensures !HasRequest(s.cache, id) ==> Next(s, Response(id)) == s
  {
    hide Without;
    if k < |s.cache| && s.cache[k].id == id {
      assert Position(s.cache, id) == k;
      WithoutAt(s.cache, k);
    }
  }

  /** The time to wait for is the earliest expiry, when requests expire in the order in which they came. */
  lemma FirstExpiryIsEarliest(c: seq<Entry>, bound: Time)
    requires c != [] && Sorted(c, bound)
    ensures forall i :: 0 <= i < |c| ==> FirstExpiry(c) <= c[i].expire
    ensures exists i :: 0 <= i < |c| && FirstExpiry(c) == c[i].expire
  {
    assert FirstExpiry(c) == c[0].expire;
  }

  // ----- A response to a request that was purged -----

  /** The step is a response to a request whose connection was closed. */
  ghost predicate LateResponse(s: Reactor, step: Step) {
    step.Response? && exists k :: 0 <= k < |s.cache| && s.cache[k].id == step.id && s.cache[k].handler == 0
  }

  /** No step of the run is such a response. */
  ghost predicate NoLateResponse(s: Reactor, steps: seq<Step>)
    decreases |steps|
  {
    steps == [] || (!LateResponse(s, steps[0]) && NoLateResponse(Next(s, steps[0]), steps[1..]))
  }

  lemma LateStep(s: Reactor, step: Step)
    requires DistinctIds(s.cache)
    ensures |Next(s, step).late| == |s.late| + B(LateResponse(s, step))
  {
    if step.Response? && HasRequest(s.cache, step.id) {
      var k := Position(s.cache, step.id);
      assert forall i :: 0 <= i < |s.cache| && i != k ==> s.cache[i].id != step.id;
    }
  }

  lemma {:induction false} LateRun(s: Reactor, steps: seq<Step>)
    requires DistinctIds(s.cache)
    ensures |Run(s, steps).late| >= |s.late|
    ensures |Run(s, steps).late| == |s.late| <==> NoLateResponse(s, steps)
    decreases |steps|
  {
    hide DistinctIds, Next, LateResponse;
    if steps != [] {
      LateStep(s, steps[0]);
      StepDistinct(s, steps[0]);
      LateRun(Next(s, steps[0]), steps[1..]);
    }
  }

  /** Every waiter's requests are either live or were heard of once each. */
  ghost predicate Conserved(s: Reactor) {
    forall d: nat :: Count(s.inserted, Is(d)) == Count(s.cache, LiveFor(d)) + Count(s.outcomes, For(d))
  }

  /**
   * Requests added = live + responded + timed out + cancelled, waiter by
   * waiter, exactly for the runs in which no response arrives for a request
   * of a closed connection.
   */
  lemma ConservedExactly(steps: seq<Step>)
    requires forall i :: 0 <= i < |steps| ==> Possible(steps[i])
    ensures Conserved(Run(Idle, steps)) <==> NoLateResponse(Idle, steps)
  {
    var t := Run(Idle, steps);
    LateRun(Idle, steps);
    forall d: nat ensures Accounted(t, d) {
      RunAccounted(Idle, steps, d);
    }
    if t.late != [] {
      CountOne(t.late, 0, Is(t.late[0]));
      assert Accounted(t, t.late[0]);
    } else {
      forall d: nat ensures Count(t.inserted, Is(d)) == Count(t.cache, LiveFor(d)) + Count(t.outcomes, For(d)) {
        assert Accounted(t, d);
      }
    }
  }

  /** A waiter of one request hears at most once, and exactly once when its request is gone or purged. */
  lemma HeardOnce(steps: seq<Step>, d: nat)
    requires forall i :: 0 <= i < |steps| ==> Possible(steps[i])
    requires NoLateResponse(Idle, steps) && Count(Run(Idle, steps).inserted, Is(d)) == 1
    ensures Count(Run(Idle, steps).outcomes, For(d)) <= 1
    ensures Count(Run(Idle, steps).outcomes, For(d)) == 1 <==> Count(Run(Idle, steps).cache, LiveFor(d)) == 0
  {
    RunAccounted(Idle, steps, d);
    LateRun(Idle, steps);
  }

  /** A cancelled request that is answered after all: its waiter hears twice. */
  lemma AnsweredAfterClose()
    ensures var t := Run(Idle, [Request(7, 1, 5, 100), Close(1), Response(7)]);
            t.inserted == [5] && t.outcomes == [Cancelled(5), Responded(5)]
  {
    var s1 := Next(Idle, Request(7, 1, 5, 100));
    assert s1 == Reactor([Entry(7, 1, 5, 100)], [5], [], []);
    var s2 := Next(s1, Close(1));
    assert s2.cache[0] == Entry(7, 0, 5, 100);
    assert s2.outcomes == [Cancelled(5)];
    assert Position(s2.cache, 7) == 0;
    assert Run(s2, [Response(7)]) == Next(s2, Response(7));
    assert [Request(7, 1, 5, 100), Close(1), Response(7)][1..] == [Close(1), Response(7)];
    assert [Close(1), Response(7)][1..] == [Response(7)];
  }

  // ----- What a drain leaves behind -----

  /** No live request in the cache has expired. */
  ghost predicate NoneOverdue(c: seq<Entry>, now: Time) {
    forall i :: 0 <= i < |c| && c[i].handler != 0 ==> c[i].expire > now
  }

  /** No live request stands behind one that expires later. */
  ghost predicate Orderly(c: seq<Entry>) {
    forall i, j :: 0 <= i < j < |c| && c[j].handler != 0 ==> c[i].expire <= c[j].expire
  }

  /** Drains never leave an overdue request, whatever the time, exactly when the cache is in order. */
  lemma DrainCompleteExactly(c: seq<Entry>)
    ensures (forall now: Time :: NoneOverdue(DrainedRest(c, now), now)) <==> Orderly(c)
  {
    if Orderly(c) {
      forall now: Time ensures NoneOverdue(DrainedRest(c, now), now) {
        var n := LeadingExpired(c, now);
        forall i | 0 <= i < |c[n..]| && c[n..][i].handler != 0 ensures c[n..][i].expire > now {
          assert c[n..][i] == c[n + i];
        }
      }
    } else {
      var i, j :| 0 <= i < j < |c| && c[j].handler != 0 && c[i].expire > c[j].expire;
      var now := c[j].expire;
      var n := LeadingExpired(c, now);
      assert DrainedRest(c, now)[j - n] == c[j];
      assert !NoneOverdue(DrainedRest(c, now), now);
    }
  }

  /** A request with a long timeout hides one with a short timeout from the drain. */
  lemma LongTimeoutHidesShort()
    ensures var t := Run(Idle, [Request(1, 1, 5, 100), Request(2, 1, 6, 10), Timeouts(50)]);
            t.outcomes == [] && !NoneOverdue(t.cache, 50)
  {
    var a, b := Entry(1, 1, 5, 100), Entry(2, 1, 6, 10);
    var s1, s2 := Reactor([a], [5], [], []), Reactor([a, b], [5, 6], [], []);
    assert Next(Idle, Request(1, 1, 5, 100)) == s1;
    assert Next(s1, Request(2, 1, 6, 10)) == s2;
    var steps := [Request(1, 1, 5, 100), Request(2, 1, 6, 10), Timeouts(50)];
    assert steps[1..] == [Request(2, 1, 6, 10), Timeouts(50)] && steps[1..][1..] == [Timeouts(50)];
    assert [Timeouts(50)][1..] == [] && Run(s2, [Timeouts(50)]) == Next(s2, Timeouts(50));
    assert LeadingExpired([a, b], 50) == 0 && [a, b][0..] == [a, b] && [a, b][..0] == [];
    assert [a, b][1].handler != 0;
  }

  /** Each request expires no earlier than the one before it, the first no earlier than `since`. */
  predicate InExpiryOrder(steps: seq<Step>, since: Time) {
    steps == [] ||
    (if steps[0].Request? then since <= steps[0].expire && InExpiryOrder(steps[1..], steps[0].expire)
     else InExpiryOrder(steps[1..], since))
  }

  ghost predicate Sorted(c: seq<Entry>, bound: Time) {
    && (forall i, j :: 0 <= i < j < |c| ==> c[i].expire <= c[j].expire)
    && (forall i :: 0 <= i < |c| ==> c[i].expire <= bound)
  }

  lemma StepSorted(s: Reactor, step: Step, since: Time)
    requires DistinctIds(s.cache) && Sorted(s.cache, since) && (step.Request? ==> since <= step.expire)
    ensures Sorted(Next(s, step).cache, if step.Request? then step.expire else since)
  {
    hide Without, DrainedRest, Marked, Position;
    match step {
      case Request(id, handler, dh, expire) =>
      case Response(id) => if HasRequest(s.cache, id) { AnswerKeeps(s, Position(s.cache, id)); }
      case Timeouts(now) => DrainKeeps(s.cache, now);
      case Close(handler) => MarkKeeps(s.cache, handler);
    }
  }

  lemma {:induction false} RunSorted(s: Reactor, steps: seq<Step>, since: Time) returns (bound: Time)
    requires DistinctIds(s.cache) && Sorted(s.cache, since) && InExpiryOrder(steps, since)
    ensures Sorted(Run(s, steps).cache, bound)
    decreases |steps|
  {
    hide Next, Sorted, DistinctIds;
    if steps == [] {
      bound := since;
    } else {
      StepSorted(s, steps[0], since);
      StepDistinct(s, steps[0]);
      bound := RunSorted(Next(s, steps[0]), steps[1..], if steps[0].Request? then steps[0].expire else since);
    }
  }

  /** When requests are added in the order they expire, a drain after any run leaves nothing overdue. */
  lemma NothingOverdueAfterDrain(steps: seq<Step>, now: Time)
    requires InExpiryOrder(steps, 0)
    ensures NoneOverdue(Next(Run(Idle, steps), Timeouts(now)).cache, now)
  {
    var bound := RunSorted(Idle, steps, 0);
    DrainCompleteExactly(Run(Idle, steps).cache);
  }
}
