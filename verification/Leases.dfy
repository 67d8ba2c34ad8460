/**
 * The lease of a session at the master: keepalives renew it, and a timer sweeps
 * the sessions whose lease has run out.  Over any run of both, a session is
 * ended exactly when it was silent for longer than the lease.
 */
module Leases {
  import opened Sequences
  import opened Serialization
  import opened Keepalive
  import opened Sessions
  import opened NotificationProtocol

  // ----- One session -----

  datatype Beat = Alive(ack: nat, now: int) | Sweep(now: int)

  ghost function Beaten(s: Session, beat: Beat, lease: int): Session {
    match beat
    case Alive(ack, now) => ServerHandle(s, ClientKeepalive(s.id, ack, false), now, lease).0
    case Sweep(now) => Swept(s, now)
  }

  ghost function BeatenAll(s: Session, beats: seq<Beat>, lease: int): Session
    decreases |beats|
  {
    if beats == [] then s else BeatenAll(Beaten(s, beats[0], lease), beats[1..], lease)
  }

  /** No beat comes later than a lease after the last keepalive before it. */
  predicate InTime(last: int, beats: seq<Beat>, lease: int)
    decreases |beats|
  {
    beats == [] ||
    (beats[0].now - last <= lease && InTime(if beats[0].Alive? then beats[0].now else last, beats[1..], lease))
  }

  ghost predicate Fits(s: Session, beats: seq<Beat>) {
    s.id < P64 && forall i :: 0 <= i < |beats| && beats[i].Alive? ==> beats[i].ack < P64
  }

  /**
   * The answer to a keepalive of a session whose lease was last renewed at
   * `last`: within the lease it is the rest of the queue and the lease runs
   * from now on; otherwise it is the error, and the session is ended.
   */
  lemma KeepaliveAnswered(s: Session, ack: nat, now: int, last: int, lease: int)
    requires s.id < P64 && ack < P64 && s.registered && !s.expired && s.expireTime == last + lease
    ensures var (t, reply) := ServerHandle(s, ClientKeepalive(s.id, ack, false), now, lease);
            && t.registered && t.id == s.id
            && if now - last <= lease
               then t.expireTime == now + lease && !t.expired && t.queue == Filter(s.queue, Beyond(ack)) &&
                    (ServerKeepalive(t.id, t.queue).Ok? ==> reply == Some(ServerKeepalive(t.id, t.queue).value))
               else t.expired && t.queue == [] && reply == Some(ServerError(s.id, EXPIRED_SESSION))
  {
    hide ServerKeepalive, ServerError, ClientKeepalive, DecodeClientKeepalive;
    ClientKeepaliveDecodes(s.id, ack, false);
  }

  /**
   * The last message of a client that closes its session: it is not answered,
   * the session is ended at once, the next sweep finds it, and any keepalive
   * that comes later is answered with the error.
   */
  lemma ShutdownEnds(s: Session, ack: nat, now: int, lease: int, again: nat, later: int)
    requires s.id < P64 && ack < P64 && again < P64 && s.registered && (s.expired ==> s.queue == [])
    ensures var (t, reply) := ServerHandle(s, ClientKeepalive(s.id, ack, true), now, lease);
            && t.expired && !t.registered && t.queue == [] && reply.None? && t.expireTime == now
            && ServerHandle(t, ClientKeepalive(t.id, again, false), later, lease) ==
               (t, Some(ServerError(s.id, EXPIRED_SESSION)))
  {
    hide ServerKeepalive, ServerError, ClientKeepalive, DecodeClientKeepalive;
    ClientKeepaliveDecodes(s.id, ack, true);
    ClientKeepaliveDecodes(s.id, again, false);
  }

  /** A session that the timer finds after its lease is gone, and later keepalives are answered with the error. */
  lemma SweptIsGone(s: Session, now: int, ack: nat, later: int, lease: int)
    requires s.id < P64 && ack < P64 && (s.expired ==> s.queue == [])
    ensures s.expireTime >= now ==> Swept(s, now) == s
    ensures s.expireTime < now ==>
              var t := Swept(s, now);
              t.expired && t.queue == [] &&
              ServerHandle(t, ClientKeepalive(t.id, ack, false), later, lease) ==
              (t, Some(ServerError(s.id, EXPIRED_SESSION)))
  {
    hide ServerKeepalive, ServerError, ClientKeepalive, DecodeClientKeepalive;
    ClientKeepaliveDecodes(s.id, ack, false);
  }

  /** A session that is ended stays ended. */
  lemma {:induction false} EndedStays(s: Session, beats: seq<Beat>, lease: int)
    requires s.expired
    ensures BeatenAll(s, beats, lease).expired
    decreases |beats|
  {
    if beats != [] {
      EndedStays(Beaten(s, beats[0], lease), beats[1..], lease);
    }
  }

  /** Over any run of keepalives and sweeps, a session is ended exactly when one of them is not in time. */
  lemma {:induction false} EndedExactlyWhenLate(s: Session, beats: seq<Beat>, last: int, lease: int)
    requires s.registered && !s.expired && s.expireTime == last + lease && Fits(s, beats)
    ensures BeatenAll(s, beats, lease).expired <==> !InTime(last, beats, lease)
    ensures InTime(last, beats, lease) ==> BeatenAll(s, beats, lease).registered
    decreases |beats|
  {
    hide ServerHandle;
    if beats != [] {
      var t := Beaten(s, beats[0], lease);
      if beats[0].Alive? {
        KeepaliveAnswered(s, beats[0].ack, beats[0].now, last, lease);
      }
      if t.expired {
        EndedStays(t, beats[1..], lease);
      } else {
        EndedExactlyWhenLate(t, beats[1..], if beats[0].Alive? then beats[0].now else last, lease);
      }
    }
  }

  /** A new session whose keepalives are never more than a lease apart is kept by every sweep in between. */
  lemma KeptAlive(id: nat, now: int, beats: seq<Beat>)
    requires 0 < id < P64 && Fits(Start(id, now).session, beats) && InTime(now, beats, LEASE)
    ensures !BeatenAll(Start(id, now).session, beats, LEASE).expired
  {
    EndedExactlyWhenLate(Start(id, now).session, beats, now, LEASE);
  }

  // ----- All sessions -----

  /** The place of a session whose lease runs out first: the top of the heap. */
  method Earliest(heap: seq<Session>) returns (i: nat)
    requires heap != []
    ensures i < |heap| && forall j :: 0 <= j < |heap| ==> heap[i].expireTime <= heap[j].expireTime
  {
    i := 0;
    for k := 1 to |heap|
      invariant i < |heap| && forall j :: 0 <= j < k ==> heap[i].expireTime <= heap[j].expireTime
    {
      if heap[k].expireTime < heap[i].expireTime {
        i := k;
      }
    }
  }

  lemma TakenOut<T>(s: seq<T>, i: nat)
    requires i < |s|
    ensures multiset(s) == multiset(s[..i] + s[i + 1..]) + multiset{s[i]}
  {
    assert s == s[..i] + [s[i]] + s[i + 1..];
  }

  /** The timer: takes the session at the top of the heap as long as its lease has run out. */
  method RemoveExpiredSessions(sessions: seq<Session>, now: int) returns (heap: seq<Session>, gone: seq<Session>)
    ensures multiset(heap) + multiset(gone) == multiset(sessions)
    ensures forall s :: s in heap ==> s.expireTime >= now
    ensures forall s :: s in gone ==> s.expireTime < now
  {
    heap, gone := sessions, [];
    while heap != []
      invariant multiset(heap) + multiset(gone) == multiset(sessions)
      invariant forall s :: s in gone ==> s.expireTime < now
      decreases |heap|
    {
      var i := Earliest(heap);
      if heap[i].expireTime >= now {
        return;
      }
      TakenOut(heap, i);
      gone := gone + [heap[i]];
      heap := heap[..i] + heap[i + 1..];
    }
  }
}
