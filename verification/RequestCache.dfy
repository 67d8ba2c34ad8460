/**
 * The cache of requests that wait for a response: a doubly linked list in the
 * order of insertion, oldest at the head, and a map from request id to list
 * node.  A request whose connection goes away stays in the list with its
 * handler cleared, until its time has come.
 */
module RequestCache {
  import opened Sequences

  type Time = nat

  /** A request: `handler` is its connection, 0 when purged; `dh` is who waits for the response. */
  datatype Entry = Entry(id: nat, handler: nat, dh: nat, expire: Time)

  class CacheNode {
    var prev: CacheNode?
    var next: CacheNode?
    var handler: nat
    const id: nat
    const dh: nat
    const expire: Time

    constructor (id: nat, handler: nat, dh: nat, expire: Time)
      ensures this.id == id && this.handler == handler && this.dh == dh && this.expire == expire
      ensures prev == null && next == null
    {
      this.id, this.handler, this.dh, this.expire := id, handler, dh, expire;
      prev, next := null, null;
    }

    ghost function Value(): Entry
      reads this`handler
    {
      Entry(id, handler, dh, expire)
    }
  }

  // ----- The cache as a sequence of requests -----

  ghost predicate HasRequest(c: seq<Entry>, id: nat) {
    exists i :: 0 <= i < |c| && c[i].id == id
  }

  ghost predicate DistinctIds(c: seq<Entry>) {
    forall i, j :: 0 <= i < j < |c| ==> c[i].id != c[j].id
  }

  /** The request with an id is taken out. */
  ghost function Without(c: seq<Entry>, id: nat): seq<Entry> {
    if c == [] then [] else if c[0].id == id then c[1..] else [c[0]] + Without(c[1..], id)
  }

  /** The cache after a timeout was looked for, and the request that has timed out. */
  ghost function NextTimeout(c: seq<Entry>, now: Time): (seq<Entry>, Option<Entry>)
    decreases |c|
  {
    if c == [] || c[0].expire > now then (c, None)
    else if c[0].handler != 0 then (c[1..], Some(c[0]))
    else NextTimeout(c[1..], now)
  }

  ghost function Mark(e: Entry, handler: nat): Entry {
    if e.handler == handler then e.(handler := 0) else e
  }

  /** The requests of a connection are marked, not taken out. */
  ghost function Marked(c: seq<Entry>, handler: nat): (r: seq<Entry>)
    ensures |r| == |c| && forall i :: 0 <= i < |c| ==> r[i] == Mark(c[i], handler)
  {
    if c == [] then [] else [Mark(c[0], handler)] + Marked(c[1..], handler)
  }

  /** How many requests from the head on have expired. */
  ghost function LeadingExpired(c: seq<Entry>, now: Time): (n: nat)
    ensures n <= |c| && (forall i :: 0 <= i < n ==> c[i].expire <= now)
    ensures n < |c| ==> c[n].expire > now
  {
    if c == [] || c[0].expire > now then 0 else 1 + LeadingExpired(c[1..], now)
  }

  /** Who waits for the live requests among some, in order. */
  ghost function LiveWaiters(c: seq<Entry>): seq<nat> {
    if c == [] then []
    else if c[0].handler != 0 then [c[0].dh] + LiveWaiters(c[1..])
    else LiveWaiters(c[1..])
  }

  /** The expiry time to wait for, 0 when there is none. */
  ghost function FirstExpiry(c: seq<Entry>): Time {
    if c == [] then 0 else c[0].expire
  }

  /** Draining all timeouts takes out the leading expired requests ... */
  ghost function DrainedRest(c: seq<Entry>, now: Time): seq<Entry> {
    c[LeadingExpired(c, now)..]
  }

  /** ... and reports to the live ones among them. */
  ghost function DrainedWaiters(c: seq<Entry>, now: Time): seq<nat> {
    LiveWaiters(c[..LeadingExpired(c, now)])
  }

  lemma DrainStep(c: seq<Entry>, now: Time)
    requires c != [] && c[0].expire <= now
    ensures DrainedRest(c, now) == DrainedRest(c[1..], now)
    ensures c[0].handler != 0 ==> DrainedWaiters(c, now) == [c[0].dh] + DrainedWaiters(c[1..], now)
    ensures c[0].handler == 0 ==> DrainedWaiters(c, now) == DrainedWaiters(c[1..], now)
  {
    var n := LeadingExpired(c[1..], now);
    assert c[1..][..n] == c[..n + 1][1..];
  }

  lemma {:induction false} NextTimeoutDrains(c: seq<Entry>, now: Time)
    ensures DrainedRest(NextTimeout(c, now).0, now) == DrainedRest(c, now)
    ensures NextTimeout(c, now).1.Some? ==>
              DrainedWaiters(c, now) == [NextTimeout(c, now).1.value.dh] + DrainedWaiters(NextTimeout(c, now).0, now)
    ensures NextTimeout(c, now).1.None? ==> DrainedWaiters(c, now) == [] && DrainedRest(c, now) == NextTimeout(c, now).0
    decreases |c|
  {
    if c != [] && c[0].expire <= now {
      DrainStep(c, now);
      if c[0].handler == 0 {
        NextTimeoutDrains(c[1..], now);
      }
    }
  }

  /** Who waits for the requests of a connection, newest request first. */
  ghost function Waiting(c: seq<Entry>, handler: nat): seq<nat> {
    if c == [] then []
    else if c[0].handler == handler then Waiting(c[1..], handler) + [c[0].dh]
    else Waiting(c[1..], handler)
  }

  lemma WaitingStep(c: seq<Entry>, k: nat, handler: nat)
    requires k <= |c|
    ensures k == |c| ==> Waiting(c[k..], handler) == []
    ensures k < |c| && c[k].handler == handler ==> Waiting(c[k..], handler) == Waiting(c[k + 1..], handler) + [c[k].dh]
    ensures k < |c| && c[k].handler != handler ==> Waiting(c[k..], handler) == Waiting(c[k + 1..], handler)
  {
    if k < |c| {
      assert c[k..][1..] == c[k + 1..];
    }
  }

  lemma {:induction false} WithoutAt(c: seq<Entry>, k: nat)
    requires DistinctIds(c) && k < |c|
    ensures Without(c, c[k].id) == c[..k] + c[k + 1..]
  {
    if k > 0 {
      assert c[0].id != c[k].id;
      assert c[1..][k - 1] == c[k];
      WithoutAt(c[1..], k - 1);
      assert c[..k] + c[k + 1..] == [c[0]] + (c[1..][..k - 1] + c[1..][k..]);
    }
  }

  lemma {:induction false} WithoutMissing(c: seq<Entry>, id: nat)
    requires !HasRequest(c, id)
    ensures Without(c, id) == c
  {
    if c != [] {
      assert c[0].id != id;
      forall i | 0 <= i < |c[1..]| ensures c[1..][i].id != id {
        assert c[1..][i] == c[i + 1];
      }
      WithoutMissing(c[1..], id);
    }
  }

  class RequestCache {
    var head: CacheNode?
    var tail: CacheNode?
    var idMap: map<nat, CacheNode>
    ghost var nodes: seq<CacheNode>

    /** The links, the two ends and the map all describe the sequence `nodes`, from head to tail. */
    ghost predicate Valid()
      reads this, nodes`prev, nodes`next
    {
      ListOk() && MapOk(idMap, nodes)
    }

    ghost predicate ListOk()
      reads this`head, this`tail, this`nodes, nodes`prev, nodes`next
    {
      && Distinct(nodes) && Linked(nodes)
      && head == (if nodes == [] then null else nodes[0])
      && tail == (if nodes == [] then null else nodes[|nodes| - 1])
    }

    static ghost predicate MapOk(idMap: map<nat, CacheNode>, nodes: seq<CacheNode>) {
      && (forall i :: 0 <= i < |nodes| ==> nodes[i].id in idMap && idMap[nodes[i].id] == nodes[i])
      && (forall id :: id in idMap ==> idMap[id] in nodes && idMap[id].id == id)
    }

    static ghost predicate Distinct(nodes: seq<CacheNode>) {
      forall i, j :: 0 <= i < j < |nodes| ==> nodes[i] != nodes[j]
    }

    static ghost predicate Linked(nodes: seq<CacheNode>)
      reads nodes`prev, nodes`next
    {
      && (forall i, j :: 0 <= i && j == i + 1 && j < |nodes| ==> nodes[i].prev == nodes[j] && nodes[j].next == nodes[i])
      && (nodes != [] ==> nodes[0].next == null && nodes[|nodes| - 1].prev == null)
    }

    static ghost function Values(nodes: seq<CacheNode>): (c: seq<Entry>)
      reads nodes`handler
      ensures |c| == |nodes| && forall i :: 0 <= i < |c| ==> c[i] == nodes[i].Value()
    {
      if nodes == [] then [] else [nodes[0].Value()] + Values(nodes[1..])
    }

    ghost function Contents(): seq<Entry>
      reads this`nodes, nodes`handler
    {
      Values(nodes)
    }

    static lemma ValuesSnoc(nodes: seq<CacheNode>, node: CacheNode)
      ensures Values(nodes + [node]) == Values(nodes) + [node.Value()]
    {
    }

    /** The map holds exactly the ids of the requests in the list. */
    lemma MapHoldsIds(id: nat)
      requires MapOk(idMap, nodes)
      ensures id in idMap <==> HasRequest(Contents(), id)
    {
      if id in idMap {
        var i :| 0 <= i < |nodes| && nodes[i] == idMap[id];
        assert Contents()[i].id == id;
      }
    }

    static lemma MapAdd(idMap: map<nat, CacheNode>, nodes: seq<CacheNode>, node: CacheNode)
      requires MapOk(idMap, nodes) && node.id !in idMap
      ensures MapOk(idMap[node.id := node], nodes + [node])
    {
      var grown := idMap[node.id := node];
      forall id | id in grown ensures grown[id] in nodes + [node] && grown[id].id == id {
        if id != node.id {
          assert idMap[id] in nodes;
        }
      }
    }

    static lemma MapDrop(idMap: map<nat, CacheNode>, nodes: seq<CacheNode>, k: nat)
      requires MapOk(idMap, nodes) && Distinct(nodes) && k < |nodes|
      ensures MapOk(idMap - {nodes[k].id}, nodes[..k] + nodes[k + 1..])
    {
      var rest, shrunk := nodes[..k] + nodes[k + 1..], idMap - {nodes[k].id};
      forall i | 0 <= i < |rest| ensures rest[i].id in shrunk && shrunk[rest[i].id] == rest[i] {
        var j := if i < k then i else i + 1;
        assert rest[i] == nodes[j] && nodes[j] != nodes[k];
      }
      forall id | id in shrunk ensures shrunk[id] in rest && shrunk[id].id == id {
        var j :| 0 <= j < |nodes| && nodes[j] == idMap[id];
        assert rest[if j < k then j else j - 1] == nodes[j];
      }
    }

    static lemma ValuesDrop(nodes: seq<CacheNode>, k: nat)
      requires k < |nodes|
      ensures Values(nodes[..k] + nodes[k + 1..]) == Values(nodes)[..k] + Values(nodes)[k + 1..]
    {
      hide Values;
    }

    static lemma ValuesDistinct(idMap: map<nat, CacheNode>, nodes: seq<CacheNode>)
      requires MapOk(idMap, nodes) && Distinct(nodes)
      ensures DistinctIds(Values(nodes))
    {
    }

    /** Where the map's node for an id stands in the list. */
    ghost function IndexOf(id: nat): (k: nat)
      requires MapOk(idMap, nodes) && id in idMap
      reads this
      ensures k < |nodes| && nodes[k] == idMap[id] && nodes[k].id == id
    {
      var k :| 0 <= k < |nodes| && nodes[k] == idMap[id];
      k
    }

    /** What the list, the map and the contents are once the node at `k` is gone. */
    lemma RemovedAt(k: nat)
      requires MapOk(idMap, nodes) && Distinct(nodes) && k < |nodes|
      ensures MapOk(idMap - {nodes[k].id}, nodes[..k] + nodes[k + 1..])
      ensures Values(nodes[..k] + nodes[k + 1..]) == Without(Contents(), nodes[k].id)
      ensures nodes[k].Value() in Contents()
    {
      hide Without, MapOk, Distinct;
      MapDrop(idMap, nodes, k);
      ValuesDrop(nodes, k);
      ValuesDistinct(idMap, nodes);
      assert Contents()[k] == nodes[k].Value();
      WithoutAt(Contents(), k);
    }

    /** What the map and the contents are once the head is gone. */
    lemma DropHead()
      requires MapOk(idMap, nodes) && Distinct(nodes) && nodes != []
      ensures MapOk(idMap - {nodes[0].id}, nodes[1..])
      ensures Values(nodes[1..]) == Contents()[1..] && nodes[0].Value() == Contents()[0]
    {
      hide MapOk, Values;
      MapDrop(idMap, nodes, 0);
      assert nodes[..0] + nodes[1..] == nodes[1..];
    }

    constructor ()
      ensures Valid() && Contents() == []
    {
      head, tail, idMap, nodes := null, null, map[], [];
    }

    /** Links a node in behind the tail. */
    method LinkTail(node: CacheNode)
      requires ListOk() && node !in nodes
      modifies this`head, this`tail, this`nodes, nodes`prev, node`prev, node`next
      ensures ListOk() && nodes == old(nodes) + [node]
    {
      if head == null {
        node.next, node.prev := null, null;
        head, tail := node, node;
      } else {
        node.next := tail;
        node.next.prev := node;
        node.prev := null;
        tail := node;
      }
      nodes := nodes + [node];
    }

    /** Appends a request; an id that is already there is an error and changes nothing. */
    method Insert(id: nat, handler: nat, dh: nat, expire: Time) returns (ok: bool)
      requires Valid()
      modifies this, nodes`prev
      ensures Valid() && ok == !HasRequest(old(Contents()), id)
      ensures Contents() == if ok then old(Contents()) + [Entry(id, handler, dh, expire)] else old(Contents())
    {
      hide MapOk, Linked, Values, HasRequest;
      MapHoldsIds(id);
      if id in idMap {
        return false;
      }
      var node := new CacheNode(id, handler, dh, expire);
      LinkTail(node);
      MapAdd(idMap, old(nodes), node);
      idMap := idMap[id := node];
      ok := true;
      ValuesSnoc(old(nodes), node);
    }

    /** Links a node out of the middle or of either end. */
    method Unlink(node: CacheNode, ghost k: nat)
      requires ListOk() && k < |nodes| && nodes[k] == node
      modifies this`head, this`tail, this`nodes, nodes`prev, nodes`next
      ensures ListOk() && nodes == old(nodes)[..k] + old(nodes)[k + 1..]
    {
      assert k > 0 ==> nodes[k - 1] != node && node.next == nodes[k - 1];
      assert k + 1 < |nodes| ==> nodes[k + 1] != node && node.prev == nodes[k + 1];
      if node.prev == null {
        tail := node.next;
      } else {
        node.prev.next := node.next;
      }
      if node.next == null {
        head := node.prev;
      } else {
        node.next.prev := node.prev;
      }
      nodes := nodes[..k] + nodes[k + 1..];
    }

    /** Links the head out. */
    method UnlinkHead()
      requires ListOk() && head != null
      modifies this`head, this`tail, this`nodes, nodes`next
      ensures ListOk() && nodes == old(nodes)[1..]
    {
      assert |nodes| > 1 ==> head.prev == nodes[1];
      if head.prev != null {
        head := head.prev;
        head.next := null;
      } else {
        head, tail := null, null;
      }
      nodes := nodes[1..];
    }

    /** Takes the request with an id out, if there is one, and returns who waits for it. */
    method Remove(id: nat) returns (dh: Option<nat>)
      requires Valid()
      modifies this, nodes`prev, nodes`next
      ensures Valid() && Contents() == Without(old(Contents()), id)
      ensures dh.Some? == HasRequest(old(Contents()), id)
      ensures dh.Some? ==> exists e :: e in old(Contents()) && e.id == id && e.dh == dh.value
    {
      hide MapOk, Linked, Values, HasRequest, Without;
      MapHoldsIds(id);
      if id !in idMap {
        WithoutMissing(Contents(), id);
        return None;
      }
      var node := idMap[id];
      ghost var k := IndexOf(id);
      RemovedAt(k);
      Unlink(node, k);
      idMap := idMap - {id};
      dh := Some(node.dh);
    }

    /** Takes the head out of the list and the map. */
    method TakeHead() returns (node: CacheNode)
      requires Valid() && head != null
      modifies this, nodes`next
      ensures Valid() && nodes == old(nodes)[1..] && Contents() == old(Contents())[1..]
      ensures node.Value() == old(Contents())[0]
    {
      hide MapOk, Linked, Values;
      node := head;
      DropHead();
      UnlinkHead();
      idMap := idMap - {node.id};
    }

    /** Drops expired requests from the head on up to the first live one, which is returned. */
    method GetNextTimeout(now: Time) returns (dh: Option<nat>, handler: nat, next: Time)
      requires Valid()
      modifies this, nodes`next
      ensures Valid() && (forall i :: 0 <= i < |nodes| ==> nodes[i] in old(nodes))
      ensures |nodes| + B(dh.Some?) <= |old(nodes)|
      ensures Contents() == NextTimeout(old(Contents()), now).0
      ensures dh.Some? ==> exists e :: NextTimeout(old(Contents()), now).1 == Some(e)
                                         && e.dh == dh.value && e.handler == handler
      ensures dh.None? ==> NextTimeout(old(Contents()), now).1 == None && next == FirstExpiry(Contents())
    {
      hide MapOk, Linked, Values;
      while head != null && head.expire <= now
        invariant Valid() && (forall i :: 0 <= i < |nodes| ==> nodes[i] in old(nodes)) && |nodes| <= |old(nodes)|
        invariant NextTimeout(Contents(), now) == NextTimeout(old(Contents()), now)
        decreases |nodes|
      {
        assert Contents()[0] == head.Value();
        var node := TakeHead();
        if node.handler != 0 {
          return Some(node.dh), node.handler, 0;
        }
      }
      dh, handler := None, 0;
      next := if head != null then head.expire else 0;
    }

    /** Marks the requests of a closed connection and reports who waited for them. */
    method PurgeRequests(handler: nat) returns (delivered: seq<nat>)
      requires Valid() && handler != 0
      modifies nodes`handler
      ensures Valid() && Contents() == Marked(old(Contents()), handler)
      ensures delivered == Waiting(old(Contents()), handler)
    {
      hide MapOk, Values, Marked, Waiting;
      ghost var c := Contents();
      delivered := [];
      var node := tail;
      ghost var k := |nodes|;
      WaitingStep(c, k, handler);
      while node != null
        invariant 0 <= k <= |nodes| && node == (if k == 0 then null else nodes[k - 1])
        invariant forall i :: 0 <= i < k ==> nodes[i].Value() == c[i]
        invariant forall i :: k <= i < |nodes| ==> nodes[i].Value() == Mark(c[i], handler)
        invariant delivered == Waiting(c[k..], handler)
        decreases k
      {
        k := k - 1;
        WaitingStep(c, k, handler);
        assert k > 0 ==> node.next == nodes[k - 1];
        if node.handler == handler {
          delivered := delivered + [node.dh];
          node.handler := 0;
        }
        node := node.next;
      }
      assert c[0..] == c;
    }

    /** The drain of the reactor: reports every timeout that is found, until none is. */
    method HandleTimeouts(now: Time) returns (delivered: seq<nat>, next: Time)
      requires Valid()
      modifies this, nodes`next
      ensures Valid() && Contents() == DrainedRest(old(Contents()), now)
      ensures delivered == DrainedWaiters(old(Contents()), now) && next == FirstExpiry(Contents())
    {
      hide MapOk, Linked, Values, DrainedRest, DrainedWaiters, NextTimeout;
      delivered := [];
      var dh, handler;
      NextTimeoutDrains(Contents(), now);
      dh, handler, next := GetNextTimeout(now);
      while dh.Some?
        invariant Valid() && (forall i :: 0 <= i < |nodes| ==> nodes[i] in old(nodes))
        invariant DrainedRest(Contents(), now) == DrainedRest(old(Contents()), now)
        invariant dh.Some? ==> delivered + ([dh.value] + DrainedWaiters(Contents(), now)) ==
                               DrainedWaiters(old(Contents()), now)
        invariant dh.None? ==> delivered == DrainedWaiters(old(Contents()), now)
        invariant dh.None? ==> DrainedRest(Contents(), now) == Contents() && next == FirstExpiry(Contents())
        decreases |nodes| + B(dh.Some?)
      {
        Assoc(delivered, [dh.value], DrainedWaiters(Contents(), now));
        delivered := delivered + [dh.value];
        NextTimeoutDrains(Contents(), now);
        dh, handler, next := GetNextTimeout(now);
      }
    }
  }
}
