/**
 * The keepalive datagrams of Hyperspace.  The server's datagram carries the
 * list of all notifications that the client has not acknowledged; the client's
 * datagram acknowledges events by the id of the last one it knows.
 */
module Keepalive {
  import Sequences
  import opened Serialization
  import opened MessageBuffer

  const COMMAND_KEEPALIVE: nat := 0
  const ERROR_OK: nat := 0

  const ATTR_SET: nat := 0x0001
  const ATTR_DEL: nat := 0x0002
  const CHILD_NODE_ADDED: nat := 0x0004
  const CHILD_NODE_REMOVED: nat := 0x0008
  const LOCK_ACQUIRED: nat := 0x0010
  const LOCK_RELEASED: nat := 0x0020
  const LOCK_GRANTED: nat := 0x0040

  predicate NamedMask(mask: nat) {
    mask == ATTR_SET || mask == ATTR_DEL || mask == CHILD_NODE_ADDED || mask == CHILD_NODE_REMOVED
  }

  datatype Event =
    | Named(id: nat, mask: nat, name: bytes)
    | LockAcquired(id: nat, mode: nat)
    | LockReleased(id: nat)
    | LockGranted(id: nat, mode: nat, generation: nat)
    | Unrecognised(id: nat, mask: nat)   // only ever comes out of the decoder

  datatype Notification = Notification(handle: nat, event: Event)

  /** The field widths, and what the server creates: events are numbered from 1. */
  predicate Valid(n: Notification) {
    && n.handle < P64 && 0 < n.event.id < P64
    && match n.event
       case Named(_, mask, name) => NamedMask(mask) && |name| < P64 - 1
       case LockAcquired(_, mode) => mode < P32
       case LockReleased(_) => true
       case LockGranted(_, mode, generation) => mode < P32 && generation < P64
       case Unrecognised(_, _) => false
  }

  predicate AllValid(ns: seq<Notification>) {
    forall i :: 0 <= i < |ns| ==> Valid(ns[i])
  }

  function Mask(e: Event): nat {
    match e
    case Named(_, mask, _) => mask
    case LockAcquired(_, _) => LOCK_ACQUIRED
    case LockReleased(_) => LOCK_RELEASED
    case LockGranted(_, _, _) => LOCK_GRANTED
    case Unrecognised(_, mask) => mask
  }

  /** The bits of the kinds of events that have one kind only. */
  lemma LockMasks(id: nat, mode: nat, generation: nat)
    ensures Mask(LockAcquired(id, mode)) == 16 && Mask(LockReleased(id)) == 32
    ensures Mask(LockGranted(id, mode, generation)) == 64
  {
  }

  // ----- Encoding -----

  function EncodePayload(e: Event): Result<bytes> {
    match e
    case Named(_, _, name) => EncodeVstr(name)
    case LockAcquired(_, mode) => Ok(EncodeInt(mode, 4))
    case LockReleased(_) => Ok([])
    case LockGranted(_, mode, generation) => Ok(EncodeInt(mode, 4) + EncodeInt(generation, 8))
    case Unrecognised(_, _) => Ok([])
  }

  function EncodeEvent(e: Event): Result<bytes> {
    var payload :- EncodePayload(e);
    Ok(EncodeInt(e.id, 8) + EncodeInt(Mask(e), 4) + payload)
  }

  function EncodedLength(e: Event): nat {
    match e
    case Named(_, _, name) => 12 + EncodedLengthVstr(|name|)
    case LockAcquired(_, _) => 16
    case LockReleased(_) => 12
    case LockGranted(_, _, _) => 24
    case Unrecognised(_, _) => 12
  }

  function EncodeNotification(n: Notification): Result<bytes> {
    var e :- EncodeEvent(n.event);
    Ok(EncodeInt(n.handle, 8) + e)
  }

  function EncodeNotifications(ns: seq<Notification>): Result<bytes> {
    if ns == [] then Ok([])
    else
      var head :- EncodeNotification(ns[0]);
      var tail :- EncodeNotifications(ns[1..]);
      Ok(head + tail)
  }

  function KeepaliveHead(sessionId: nat, error: nat, count: nat): (s: bytes)
    ensures |s| == 18 && s[..2] == EncodeInt(COMMAND_KEEPALIVE, 2) && s[2..10] == EncodeInt(sessionId, 8)
    ensures s[10..14] == EncodeInt(error, 4) && s[14..18] == EncodeInt(count, 4)
  {
    EncodeInt(COMMAND_KEEPALIVE, 2) + EncodeInt(sessionId, 8) + EncodeInt(error, 4) + EncodeInt(count, 4)
  }

  /** The datagram with all of `ns`; the count field has 32 bits. */
  function ServerKeepalive(sessionId: nat, ns: seq<Notification>): Result<bytes> {
    var list :- EncodeNotifications(ns);
    Ok(KeepaliveHead(sessionId, ERROR_OK, |ns|) + list)
  }

  function ServerError(sessionId: nat, error: nat): (s: bytes)
    ensures |s| == 18 && s[10..14] == EncodeInt(error, 4) && s[14..] == EncodeInt(0, 4)
  {
    KeepaliveHead(sessionId, error, 0)
  }

  function ClientKeepalive(sessionId: nat, lastKnown: nat, shutdown: bool): (s: bytes)
    ensures |s| == 19 && s[..2] == EncodeInt(COMMAND_KEEPALIVE, 2)
    ensures s[2..10] == EncodeInt(sessionId, 8) && s[10..18] == EncodeInt(lastKnown, 8)
    ensures s[18] == if shutdown then 1 else 0
  {
    EncodeInt(COMMAND_KEEPALIVE, 2) + EncodeInt(sessionId, 8) + EncodeInt(lastKnown, 8) + [if shutdown then 1 else 0]
  }

  // ----- Decoding -----

  datatype NotificationHead = NotificationHead(handle: nat, id: nat, mask: nat)

  function DecodeHead(s: bytes): Result<(NotificationHead, bytes)> {
    var (handle, s1) :- DecodeInt(s, 8);
    var (id, s2) :- DecodeInt(s1, 8);
    var (mask, s3) :- DecodeInt(s2, 4);
    Ok((NotificationHead(handle, id, mask), s3))
  }

  function DecodePayload(h: NotificationHead, s: bytes): Result<(Event, bytes)> {
    if NamedMask(h.mask) then
      var (name, t) :- DecodeVstr(s);
      Ok((Named(h.id, h.mask, name), t))
    else if h.mask == LOCK_ACQUIRED then
      var (mode, t) :- DecodeInt(s, 4);
      Ok((LockAcquired(h.id, mode), t))
    else if h.mask == LOCK_RELEASED then
      Ok((LockReleased(h.id), s))
    else if h.mask == LOCK_GRANTED then
      var (mode, t) :- DecodeInt(s, 4);
      var (generation, u) :- DecodeInt(t, 8);
      Ok((LockGranted(h.id, mode, generation), u))
    else
      Ok((Unrecognised(h.id, h.mask), s))
  }

  function DecodeNotifications(count: nat, s: bytes): Result<(seq<Notification>, bytes)> {
    if count == 0 then Ok(([], s))
    else
      var (h, t) :- DecodeHead(s);
      var (e, u) :- DecodePayload(h, t);
      var (ns, rest) :- DecodeNotifications(count - 1, u);
      Ok(([Notification(h.handle, e)] + ns, rest))
  }

  lemma HeadRoundTrip(n: Notification, rest: bytes)
    requires Valid(n)
    ensures
      DecodeHead(EncodeInt(n.handle, 8) + EncodeInt(n.event.id, 8) + EncodeInt(Mask(n.event), 4) + rest)
        == Ok((NotificationHead(n.handle, n.event.id, Mask(n.event)), rest))
  {
    Widths();
    var a, b, c := EncodeInt(n.handle, 8), EncodeInt(n.event.id, 8), EncodeInt(Mask(n.event), 4);
    assert a + b + c + rest == a + (b + (c + rest));
    DecodeEncodeInt(n.handle, 8, b + (c + rest));
    DecodeEncodeInt(n.event.id, 8, c + rest);
    DecodeEncodeInt(Mask(n.event), 4, rest);
  }

  lemma PayloadRoundTrip(n: Notification, rest: bytes)
    requires Valid(n)
    ensures EncodePayload(n.event).Ok? && 12 + |EncodePayload(n.event).value| == EncodedLength(n.event)
    ensures DecodePayload(NotificationHead(n.handle, n.event.id, Mask(n.event)), EncodePayload(n.event).value + rest)
              == Ok((n.event, rest))
  {
    Widths();
    match n.event
    case Named(_, _, name) => VstrRoundTrip(name, rest);
    case LockAcquired(_, mode) => DecodeEncodeInt(mode, 4, rest);
    case LockReleased(_) => assert [] + rest == rest;
    case LockGranted(_, mode, generation) =>
      var a, b := EncodeInt(mode, 4), EncodeInt(generation, 8);
      assert a + b + rest == a + (b + rest);
      DecodeEncodeInt(mode, 4, b + rest);
      DecodeEncodeInt(generation, 8, rest);
  }

  /** Where the fields of a notification stand. */
  lemma NotificationLayout(n: Notification)
    requires EncodeNotification(n).Ok?
    ensures EncodePayload(n.event).Ok?
    ensures var s := EncodeNotification(n).value;
            && |s| >= 20 && s[..8] == EncodeInt(n.handle, 8) && s[8..16] == EncodeInt(n.event.id, 8)
            && s[16..20] == EncodeInt(Mask(n.event), 4) && s[20..] == EncodePayload(n.event).value
    ensures var s := EncodeNotification(n).value;
            match n.event
            case Named(_, _, name) => s[20..] == EncodeVstr(name).value
            case LockAcquired(_, mode) => s[20..] == EncodeInt(mode, 4)
            case LockGranted(_, mode, generation) =>
              |s| == 32 && s[20..24] == EncodeInt(mode, 4) && s[24..] == EncodeInt(generation, 8)
            case _ => |s| == 20
  {
    hide EncodeInt;
  }

  lemma Regroup(a: bytes, b: bytes, c: bytes, p: bytes, rest: bytes)
    ensures a + (b + c + p) + rest == a + b + c + (p + rest)
  {
  }

  /** One notification takes the computed length, and its head and its payload come apart again. */
  lemma NotificationRoundTrip(n: Notification, rest: bytes)
    requires Valid(n)
    ensures EncodeNotification(n).Ok? && |EncodeNotification(n).value| == 8 + EncodedLength(n.event)
    ensures EncodePayload(n.event).Ok?
    ensures
      var h := NotificationHead(n.handle, n.event.id, Mask(n.event));
      var t := EncodePayload(n.event).value + rest;
      DecodeHead(EncodeNotification(n).value + rest) == Ok((h, t)) && DecodePayload(h, t) == Ok((n.event, rest))
  {
    hide EncodeInt, EncodePayload, DecodeHead, DecodePayload, Valid, Mask, EncodedLength;
    PayloadRoundTrip(n, rest);
    var p := EncodePayload(n.event).value;
    var a, b, c := EncodeInt(n.handle, 8), EncodeInt(n.event.id, 8), EncodeInt(Mask(n.event), 4);
    Regroup(a, b, c, p, rest);
    HeadRoundTrip(n, p + rest);
  }

  /** The length that the first loop of the encoder adds up. */
  function ListLength(ns: seq<Notification>): nat {
    if ns == [] then 0 else 8 + EncodedLength(ns[0].event) + ListLength(ns[1..])
  }

  /** Encoding and decoding a list with one more notification in front. */
  lemma ListStep(n: Notification, ns: seq<Notification>, rest: bytes)
    requires Valid(n) && EncodeNotifications(ns).Ok?
    requires DecodeNotifications(|ns|, EncodeNotifications(ns).value + rest) == Ok((ns, rest))
    ensures EncodeNotification(n).Ok?
    ensures EncodeNotifications([n] + ns) == Ok(EncodeNotification(n).value + EncodeNotifications(ns).value)
    ensures DecodeNotifications(|ns| + 1, EncodeNotifications([n] + ns).value + rest) == Ok(([n] + ns, rest))
  {
    hide EncodeNotification, EncodePayload, DecodeHead, DecodePayload, Valid;
    var tail := EncodeNotifications(ns).value;
    NotificationRoundTrip(n, tail + rest);
    var head := EncodeNotification(n).value;
    assert ([n] + ns)[1..] == ns;
    assert head + tail + rest == head + (tail + rest);
  }

  lemma {:induction false} ListRoundTrip(ns: seq<Notification>, rest: bytes)
    requires AllValid(ns)
    ensures EncodeNotifications(ns).Ok? && |EncodeNotifications(ns).value| == ListLength(ns)
    ensures DecodeNotifications(|ns|, EncodeNotifications(ns).value + rest) == Ok((ns, rest))
  {
    if ns == [] {
      assert [] + rest == rest;
    } else {
      ListRoundTrip(ns[1..], rest);
      ListStep(ns[0], ns[1..], rest);
      NotificationRoundTrip(ns[0], []);
      assert [ns[0]] + ns[1..] == ns;
    }
  }

  // ----- The encoder as the program runs it: one loop for the length, one to fill the buffer -----

  method AppendEvent(cbuf: CommBuf, e: Event)
    requires cbuf.Valid() && EncodeEvent(e).Ok?
    modifies cbuf, cbuf.data
    ensures cbuf.Valid() && cbuf.appended == old(cbuf.appended) + EncodeEvent(e).value
  {
    hide EncodeInt, EncodePayload, Mask;
    ghost var before := cbuf.appended;
    var id, mask, payload := EncodeInt(e.id, 8), EncodeInt(Mask(e), 4), EncodePayload(e).value;
    cbuf.Append(id);
    cbuf.Append(mask);
    cbuf.Append(payload);
    Sequences.Assoc(before, id, mask);
    Sequences.Assoc(before, id + mask, payload);
  }

  method AppendNotification(cbuf: CommBuf, n: Notification)
    requires cbuf.Valid() && EncodeNotification(n).Ok?
    modifies cbuf, cbuf.data
    ensures cbuf.Valid() && cbuf.appended == old(cbuf.appended) + EncodeNotification(n).value
  {
    hide EncodeInt, EncodeEvent;
    ghost var before := cbuf.appended;
    var handle := EncodeInt(n.handle, 8);
    cbuf.Append(handle);
    AppendEvent(cbuf, n.event);
    Sequences.Assoc(before, handle, EncodeEvent(n.event).value);
  }

  /** The second loop of the encoder. */
  method AppendNotifications(cbuf: CommBuf, ns: seq<Notification>)
    requires cbuf.Valid() && EncodeNotifications(ns).Ok?
    modifies cbuf, cbuf.data
    ensures cbuf.Valid() && cbuf.appended == old(cbuf.appended) + EncodeNotifications(ns).value
  {
    hide EncodeNotification;
    var i := 0;
    while i < |ns|
      invariant i <= |ns| && cbuf.Valid() && EncodeNotifications(ns[i..]).Ok?
      invariant cbuf.appended + EncodeNotifications(ns[i..]).value ==
                old(cbuf.appended) + EncodeNotifications(ns).value
    {
      assert ns[i..][1..] == ns[i + 1..];
      ghost var before, head := cbuf.appended, EncodeNotification(ns[i]).value;
      ghost var tail := EncodeNotifications(ns[i + 1..]).value;
      Sequences.Assoc(before, head, tail);
      AppendNotification(cbuf, ns[i]);
      i := i + 1;
    }
  }

  /** The first loop: the length of the datagram, added up in 32 bits that wrap. */
  method ComputeLength(notifications: seq<Notification>) returns (len: nat)
    ensures len == (18 + ListLength(notifications)) % P32
  {
    len := 18;
    var i := 0;
    while i < |notifications|
      invariant i <= |notifications| && len < P32
      invariant (len + ListLength(notifications[i..])) % P32 == (18 + ListLength(notifications)) % P32
    {
      assert notifications[i..][1..] == notifications[i + 1..];
      var n := EncodedLength(notifications[i].event);
      ghost var left := ListLength(notifications[i + 1..]);
      WrapOnce(len + 8, n + left);
      WrapOnce((len + 8) % P32 + n, left);
      len := (len + 8) % P32;
      len := (len + n) % P32;
      i := i + 1;
    }
  }

  /** The length of the message for a list of notifications: header, head and list. */
  function MessageLength(ns: seq<Notification>): nat { HEADER + 18 + ListLength(ns) }

  lemma LengthWraps(n: nat)
    ensures n % P32 <= n && (n % P32 < n <==> n >= P32)
  {
  }

  /**
   * Builds the message for the un-acknowledged notifications of a session.
   * What is appended fills the buffer exactly, or goes over its end exactly
   * when the length, with the header, has wrapped.
   */
  method CreateServerKeepalive(sessionId: nat, notifications: seq<Notification>) returns (cbuf: CommBuf)
    requires AllValid(notifications)
    ensures fresh(cbuf) && fresh(cbuf.data) && cbuf.Valid() && ServerKeepalive(sessionId, notifications).Ok?
    ensures cbuf.appended == EncodeHeader(PROTOCOL_HYPERSPACE, 0, 0, 0, cbuf.data.Length) +
                             ServerKeepalive(sessionId, notifications).value
    ensures cbuf.overrun <==> MessageLength(notifications) >= P32
    ensures !cbuf.overrun ==> cbuf.dataPtr == cbuf.data.Length == MessageLength(notifications)
  {
    hide ListLength, EncodeNotifications, DecodeNotifications, KeepaliveHead, EncodeHeader, Valid;
    ListRoundTrip(notifications, []);
    var len := ComputeLength(notifications);
    WrapOnce(18 + ListLength(notifications), HEADER);
    LengthWraps(MessageLength(notifications));
    cbuf := new CommBuf(PROTOCOL_HYPERSPACE, 0, len);
    ghost var header := cbuf.appended;
    var head := KeepaliveHead(sessionId, ERROR_OK, |notifications|);
    cbuf.Append(head);
    AppendNotifications(cbuf, notifications);
    Sequences.Assoc(header, head, EncodeNotifications(notifications).value);
  }

  /** A name for which the length has 32 bits, and has more with the header: the buffer has 10 bytes. */
  lemma HeaderWraps() returns (n: Notification)
    ensures Valid(n) && 18 + ListLength([n]) < P32 && MessageLength([n]) % P32 == 10
  {
    var name: bytes := seq(P32 - 50, _ => 0);
    n := Notification(1, Named(1, ATTR_SET, name));
    assert [n][1..] == [];
    assert ListLength([n]) == 8 + EncodedLength(n.event) + ListLength([]);
  }
}
