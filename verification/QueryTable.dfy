/** The query list, the query ID pool and the reply handling as they work in place: qid.c, query.c
    and udp_handle_reply.  Every method is tied to a step of QueryProtocol. */
module QueryTable {
  import opened Octets
  import opened QueryProtocol
  import opened QueryResources
  import QueryReplies
  import QuerySweep
  import opened Servers

  // ---------------------------------------------------------------------------
  // qid.c
  // ---------------------------------------------------------------------------

  class QidPool {
    const pool: array<nat>
    var ptr: int

    ghost predicate Valid()
      reads this, pool
      ensures Valid() ==> pool.Length == QID_POOL_SIZE && -1 <= ptr < QID_POOL_SIZE
    {
      && pool.Length == QID_POOL_SIZE && -1 <= ptr < QID_POOL_SIZE
      && (forall i :: 0 <= i <= ptr ==> pool[i] < QID_POOL_SIZE)
      && (forall i, j :: 0 <= i < j <= ptr ==> pool[i] != pool[j])
    }

    /** The IDs that are not in use. */
    ghost function Free(): set<nat>
      requires pool.Length == QID_POOL_SIZE && -1 <= ptr < QID_POOL_SIZE
      reads this, pool
    {
      set i | 0 <= i <= ptr :: pool[i]
    }

    /** qid_init_pool */
    constructor ()
      ensures Valid() && Free() == AllQids() && fresh(pool)
    {
      hide NumbersBelow;
      pool := new nat[QID_POOL_SIZE](i => i);
      ptr := QID_POOL_SIZE - 1;
      new;
      forall q: nat | q < QID_POOL_SIZE ensures q in Free() {
        assert pool[q] == q;
      }
    }

    /** qid_get: rand is what myrand(pool_ptr) returned, anything up to pool_ptr. */
    method Get(rand: nat) returns (qid: nat)
      requires Valid() && rand <= ptr
      modifies this, pool
      ensures Valid() && qid in old(Free()) && Free() == old(Free()) - {qid}
    {
      var i := rand % QID_POOL_SIZE;
      assert i == rand;
      qid := pool[i];
      pool[i] := pool[ptr];
      ptr := ptr - 1;
      assert forall x :: 0 <= x <= ptr ==> pool[x] == if x == i then old(pool[ptr]) else old(pool[x]);
      forall q | q in old(Free()) && q != qid ensures q in Free() {
        var x :| 0 <= x <= ptr + 1 && old(pool[x]) == q;
        assert pool[if x == ptr + 1 then i else x] == q;
      }
    }

    /** qid_return: an ID that is in use always finds room. */
    method Return(qid: nat)
      requires Valid() && qid < QID_POOL_SIZE && qid !in Free()
      modifies this, pool
      ensures Valid() && Free() == old(Free()) + {qid}
    {
      RoomToReturn(qid);
      ptr := ptr + 1;
      pool[ptr % QID_POOL_SIZE] := qid;
      assert forall x :: 0 <= x < ptr ==> pool[x] == old(pool[x]);
      forall q | q in old(Free()) ensures q in Free() {
        var x :| 0 <= x < ptr && old(pool[x]) == q;
        assert pool[x] == q;
      }
    }

    lemma {:induction false} FreeSize()
      requires Valid()
      ensures |Free()| == ptr + 1
    {
      var s := pool[..ptr + 1];
      SetOfDistinct(s);
      forall q | q in Free() ensures q in s {
        var i :| 0 <= i <= ptr && pool[i] == q;
        assert s[i] == q;
      }
      assert Free() == Elements(s);
    }

    lemma {:induction false} RoomToReturn(qid: nat)
      requires Valid() && qid < QID_POOL_SIZE && qid !in Free()
      ensures ptr + 1 < QID_POOL_SIZE
    {
      hide NumbersBelow;
      FreeSize();
      SubsetSize(Free() + {qid}, NumbersBelow(QID_POOL_SIZE));
    }
  }

  // ---------------------------------------------------------------------------
  // query.c: the circular list with its tail pointer.
  // ---------------------------------------------------------------------------

  /** The srv_list of a new query. */
  const NO_SERVERS: seq<SrvNode?> := [null, null, null]

  /** query_t: the query's fields, the servers it was sent to, and the link to the next one. */
  class Node {
    var q: Query
    var srvList: seq<SrvNode?>
    var next: Node?

    constructor (q: Query)
      ensures this.q == q && next == null && srvList == NO_SERVERS
    {
      this.q := q;
      srvList := NO_SERVERS;
      next := null;
    }
  }

  /** The queries behind the list head. */
  ghost function Queries(ring: seq<Node>): (v: seq<Query>)
    requires ring != []
    reads ring`q
    ensures |v| == |ring| - 1 && forall i :: 0 <= i < |v| ==> v[i] == ring[i + 1].q
  {
    QueriesTo(ring, |ring| - 1)
  }

  ghost function QueriesTo(ring: seq<Node>, n: nat): (v: seq<Query>)
    requires n < |ring|
    reads ring`q
    ensures |v| == n && forall i :: 0 <= i < n ==> v[i] == ring[i + 1].q
  {
    if n == 0 then [] else QueriesTo(ring, n - 1) + [ring[n].q]
  }

  class QueryTable {
    const qlist: Node
    const qids: QidPool
    const maxSockets: nat
    var tail: Node
    var sockets: int
    var fdmaster: set<int>
    ghost var ring: seq<Node>
    ghost var leaked: set<int>
    var born: seq<Birth> // numbers the query objects; the original has no such counter
    ghost var sent: seq<Sent>
    ghost var handled: seq<Handled>

    /** The nodes form one circle through the list head, and tail is the last of them. */
    ghost predicate Linked()
      reads this`ring, this`tail, ring`next
      ensures Linked() ==> ring != [] && ring[0] == qlist && ring[|ring| - 1] == tail
    {
      && ring != [] && ring[0] == qlist && ring[|ring| - 1] == tail
      && (forall i, j :: 0 <= i < j < |ring| ==> ring[i] != ring[j])
      && (forall i {:trigger ring[i].next} :: 0 <= i < |ring| - 1 ==> ring[i].next == ring[i + 1])
      && tail.next == qlist
    }

    ghost function Abs(): State
      requires ring != [] && qids.pool.Length == QID_POOL_SIZE && -1 <= qids.ptr < QID_POOL_SIZE
      reads this, ring`q, qids, qids.pool
    {
      State(Queries(ring), qids.Free(), sockets, fdmaster, leaked, born, sent, handled)
    }

    ghost predicate Valid()
      reads this, ring`q, ring`next, qids, qids.pool
    {
      Linked() && qids.Valid() && maxSockets <= QID_POOL_SIZE && ResourcesOk(Abs(), maxSockets)
    }

    /** query_init, qid_init_pool and an empty descriptor set. */
    constructor (maxSockets: nat)
      requires maxSockets <= QID_POOL_SIZE
      ensures Valid() && Abs() == INITIAL && this.maxSockets == maxSockets
      ensures fresh(qlist) && fresh(qids) && fresh(qids.pool) && ring == [qlist]
    {
      hide NumbersBelow;
      var head := new Node(Query(0, 0, 0, false, 0, false, None, [], 0, 0));
      head.next := head;
      qlist := head;
      qids := new QidPool();
      this.maxSockets := maxSockets;
      tail, sockets, fdmaster := head, 0, {};
      ring, leaked, born, sent, handled := [head], {}, [], [], [];
      new;
      InitialResources(maxSockets);
    }

    /** The pointer part of query_delete_next. */
    method Unlink(p: Node, ghost k: nat) returns (tmp: Node)
      requires Linked() && k + 1 < |ring| && p == ring[k]
      modifies this`ring, this`tail, p`next
      ensures Linked() && ring == old(ring[..k + 1] + ring[k + 2..]) && tmp == old(ring[k + 1])
    {
      assert p.next == ring[k + 1];
      tmp := p.next;
      p.next := tmp.next;
      if tail == tmp {
        tail := p;
      }
      ring := ring[..k + 1] + ring[k + 2..];
    }

    /** query_destroy: give back the ID and close the sockets. */
    method Destroy(q: Query)
      requires qids.Valid() && q.myQid < QID_POOL_SIZE && q.myQid !in qids.Free()
      modifies this`fdmaster, this`sockets, qids, qids.pool
      ensures qids.Valid() && qids.Free() == old(qids.Free()) + {q.myQid}
      ensures fdmaster == old(fdmaster) - Elements(q.socks) && sockets == old(sockets) - |q.socks|
    {
      hide Elements;
      qids.Return(q.myQid);
      NoElements<int>();
      assert q.socks[..0] == [];
      for c := 0 to |q.socks|
        modifies this`fdmaster, this`sockets
        invariant fdmaster == old(fdmaster) - Elements(q.socks[..c]) && sockets == old(sockets) - c
      {
        ElementsSnoc(q.socks, c);
        fdmaster := fdmaster - {q.socks[c]};
        sockets := sockets - 1;
      }
      assert q.socks[..|q.socks|] == q.socks;
    }

    /** query_delete_next: remove the query behind p. */
    method DeleteNext(p: Node, ghost k: nat)
      requires Valid() && k + 1 < |ring| && p == ring[k]
      modifies this, ring`q, ring`next, qids, qids.pool
      ensures Valid() && ring == old(ring[..k + 1] + ring[k + 2..])
      ensures Abs() == Delete(old(Abs()), k) && sent == old(sent) && handled == old(handled)
    {
      hide ResourcesOk, Elements, Linked, QidPool.Valid, QidPool.Free;
      ghost var before := Abs();
      DeleteKeeps(before, maxSockets, k);
      QidInUse(before, maxSockets, k);
      var tmp := Unlink(p, k);
      Destroy(tmp.q);
      assert Queries(ring) == before.list[..k] + before.list[k + 1..];
    }

    /** Search for a client's ID: the node in front of the first query that has it. */
    method FindBefore(clientQid: nat) returns (p: Node, ghost k: nat)
      requires Linked()
      ensures k < |ring| && p == ring[k] && k == FindClient(Queries(ring), clientQid)
      ensures p == ring[FindClient(Queries(ring), clientQid)]
    {
      p, k := qlist, 0;
      while p.next != qlist && (p.next as Node).q.clientQid != clientQid
        invariant k < |ring| && p == ring[k]
        invariant FindClient(Queries(ring), clientQid) == k + FindClient(Queries(ring)[k..], clientQid)
        decreases |ring| - k
      {
        assert p.next == if k + 1 < |ring| then ring[k + 1] else qlist;
        assert Queries(ring)[k..][1..] == Queries(ring)[k + 1..];
        p, k := p.next, k + 1;
      }
      assert p.next == if k + 1 < |ring| then ring[k + 1] else qlist;
    }

    /** socket() until the query has what it wants: avail are the descriptors the system hands out. */
    method OpenSockets(isDummy: bool, avail: seq<int>) returns (socks: seq<int>)
      modifies this`fdmaster, this`sockets
      ensures socks == avail[..if |avail| <= SocketsWanted(isDummy) then |avail| else SocketsWanted(isDummy)]
      ensures fdmaster == old(fdmaster) + Elements(socks) && sockets == old(sockets) + |socks|
    {
      hide Elements;
      ghost var n := if |avail| <= SocketsWanted(isDummy) then |avail| else SocketsWanted(isDummy);
      var c := 0;
      NoElements<int>();
      while c < SocketsWanted(isDummy) && c < |avail|
        invariant c <= n
        invariant fdmaster == old(fdmaster) + Elements(avail[..c]) && sockets == old(sockets) + c
      {
        ElementsSnoc(avail, c);
        fdmaster := fdmaster + {avail[c]};
        sockets := sockets + 1;
        c := c + 1;
      }
      socks := avail[..c];
    }

    /** The last lines of query_add: link the new query behind the tail. */
    method Append(n: Node)
      requires Linked() && n !in ring
      modifies this`ring, this`tail, tail`next, n`next
      ensures Linked() && ring == old(ring) + [n]
      ensures Queries(ring) == old(Queries(ring)) + [n.q]
    {
      n.next := tail.next;
      tail.next := n;
      tail := n;
      ring := ring + [n];
    }

    /** query_create without the linking: open the sockets and draw an ID.  A failing socket()
        leaves the sockets opened before it behind. */
    method QueryCreate(clientQid: nat, isDummy: bool, avail: seq<int>, rand: nat, now: int, ttl: int)
      returns (n: Node?, ghost socks: seq<int>, ghost pick: nat)
      requires Valid() && sockets < maxSockets && (qids.Free() != {} ==> rand <= qids.ptr)
      modifies this`fdmaster, this`sockets, this`leaked, this`born, qids, qids.pool
      ensures qids.Valid() && socks == avail[..if |avail| <= SocketsWanted(isDummy) then |avail| else SocketsWanted(isDummy)]
      ensures fdmaster == old(fdmaster) + Elements(socks) && sockets == old(sockets) + |socks|
      ensures n == null <==> |socks| < SocketsWanted(isDummy)
      ensures n == null ==> qids.Free() == old(qids.Free()) && leaked == old(leaked) + Elements(socks) && born == old(born)
      ensures n != null ==> fresh(n) && n.srvList == NO_SERVERS && pick in old(qids.Free()) && qids.Free() == old(qids.Free()) - {pick}
      ensures n != null ==> leaked == old(leaked) && born == old(born) + [Birth(clientQid, isDummy)]
      ensures n != null ==> n.q == Query(|old(born)|, pick, clientQid, isDummy, 0, false, None, socks, now, ttl)
    {
      hide ResourcesOk, Elements, Linked, QidPool.Free;
      PoolNeverRunsEmpty(Abs(), maxSockets);
      qids.FreeSize();
      n, pick := null, 0;
      var socketsOpened := OpenSockets(isDummy, avail);
      socks := socketsOpened;
      if |socketsOpened| < SocketsWanted(isDummy) {
        leaked := leaked + Elements(socketsOpened);
        return;
      }
      var qid := qids.Get(rand);
      pick := qid;
      n := new Node(Query(|born|, qid, clientQid, isDummy, 0, false, None, socketsOpened, now, ttl));
      born := born + [Birth(clientQid, isDummy)];
    }

    /** query_add for a query that is not on the list. */
    method AddNew(clientQid: nat, isDummy: bool, avail: seq<int>, rand: nat, now: int, ttl: int, ghost e: Event)
      returns (p: Node?, ghost pick: nat)
      requires Valid() && (qids.Free() != {} ==> rand <= qids.ptr)
      requires FindClient(Abs().list, clientQid) == |Abs().list|
      requires e == Asking(clientQid, isDummy, avail, now, ttl) && FreshSocks(Abs(), isDummy, e.socks)
      modifies this, ring`q, ring`next, qids, qids.pool
      ensures Valid() && (old(Abs()).free != {} ==> pick in old(Abs()).free)
      ensures Abs() == Step(old(Abs()), maxSockets, e.(pick := pick))
      ensures p != null ==>
        && p == old(tail) && ring == old(ring) + [tail] && fresh(tail)
        && tail.srvList == NO_SERVERS && tail.q.clientQid == clientQid
      ensures p == null ==> ring == old(ring)
    {
      hide ResourcesOk, Elements, Linked, QidPool.Valid, QidPool.Free, FindClient;
      ghost var before := Abs();
      p, pick := null, SomeElement(before.free);
      if sockets >= maxSockets {
        return;
      }
      var n, socks, drawn := QueryCreate(clientQid, isDummy, avail, rand, now, ttl);
      if n != null {
        p, pick := tail, drawn;
        Append(n);
      }
      AddKeeps(before, maxSockets, e.(pick := pick));
    }

    /** query_add: the node in front of the client's query, or null if none could be created.
        rand is what myrand returned for the pool, avail what socket() hands out. */
    method QueryAdd(clientQid: nat, isDummy: bool, avail: seq<int>, rand: nat, now: int, ttl: int)
      returns (p: Node?, ghost pick: nat)
      requires Valid() && (qids.Free() != {} ==> rand <= qids.ptr)
      requires FreshSocks(Abs(), isDummy, Asking(clientQid, isDummy, avail, now, ttl).socks)
      modifies this, ring`q, ring`next, qids, qids.pool
      ensures Valid() && (old(Abs()).free != {} ==> pick in old(Abs()).free)
      ensures Abs() == Step(old(Abs()), maxSockets, Asking(clientQid, isDummy, avail, now, ttl).(pick := pick))
      ensures p != null ==> exists k :: 0 <= k < |ring| - 1 && p == ring[k] && ring[k + 1].q.clientQid == clientQid
      ensures ring == old(ring) || (ring == old(ring) + [tail] && fresh(tail) && tail.srvList == NO_SERVERS)
    {
      hide ResourcesOk, Elements, Linked, QidPool.Valid, QidPool.Free, FreshSocks;
      ghost var before := Abs();
      pick := SomeElement(before.free);
      ghost var k;
      p, k := FindBefore(clientQid);
      NextInRing(k);
      if p.next != qlist {
        var n: Node := p.next;
        assert n.q == before.list[k];
        UpdateKeeps(before, maxSockets, k, n.q.(clientTime := now));
        UpdateQuery(n, k, n.q.(clientTime := now));
        assert p == ring[k] && ring[k + 1].q.clientQid == clientQid;
      } else {
        ghost var size := |ring|;
        assert tail == ring[size - 1];
        p, pick := AddNew(clientQid, isDummy, avail, rand, now, ttl, Asking(clientQid, isDummy, avail, now, ttl));
        if p != null {
          assert ring[size] == tail && ring[size - 1] == p;
          assert ring[size - 1 + 1].q.clientQid == clientQid;
        }
      }
    }

    lemma {:induction false} NextInRing(k: nat)
      requires Linked() && k < |ring|
      ensures ring[k].next == if k + 1 < |ring| then ring[k + 1] else qlist
      ensures k + 1 < |ring| ==> ring[k].next != qlist
    {
    }

    /** Assign to the fields of query k. */
    method UpdateQuery(n: Node, ghost k: nat, q: Query)
      requires Linked() && qids.Valid() && k + 1 < |ring| && n == ring[k + 1]
      modifies n`q
      ensures Linked() && qids.Valid() && Abs() == Update(old(Abs()), k, q) && n.q == q
    {
      n.q := q;
      assert Queries(ring) == old(Queries(ring))[k := q];
    }

    /** The ends of udp_handle_reply: count the query down, or delete it with its last answer. */
    method CountDownQuery(p: Node, ghost k: nat)
      requires Valid() && k + 1 < |ring| && p == ring[k]
      modifies this, ring`q, ring`next, qids, qids.pool
      ensures Valid() && Abs() == CountDown(old(Abs()), k) && sent == old(sent)
      ensures ring == old(ring) || ring == old(ring[..k + 1] + ring[k + 2..])
    {
      hide ResourcesOk, Elements, Linked, QidPool.Valid, QidPool.Free;
      NextInRing(k);
      var n: Node := p.next;
      if n.q.awaited == 1 {
        DeleteNext(p, k);
      } else {
        UpdateKeeps(Abs(), maxSockets, k, n.q.(awaited := n.q.awaited - 1));
        UpdateQuery(n, k, n.q.(awaited := n.q.awaited - 1));
      }
    }

    /** Lines 510-559 of udp.c: forward the reply, keep the first failure, or ignore it. */
    method DigestReply(p: Node, ghost k: nat, msg: seq<byte>)
      requires Valid() && k + 1 < |ring| && p == ring[k]
      modifies this`sent, this`handled, ring`q
      ensures Valid() && Abs() == Digest(old(Abs()), k, msg) && ring == old(ring)
      ensures var q := old(ring[k + 1].q);
        12 <= |msg| && !q.isDummy && !q.responded && (ReadU16(msg, 2) % 16 == 0 || q.awaited == 1) ==>
          sent == old(sent) + [Sent(q.id, [q.clientQid % 256, q.clientQid / 256 % 256] + msg[2..],
                                    if ReadU16(msg, 2) % 16 == 0 then Success else LastAwaited)]
      ensures var q := old(ring[k + 1].q);
        12 <= |msg| && (q.isDummy || q.responded || (ReadU16(msg, 2) % 16 != 0 && q.awaited != 1)) ==> sent == old(sent)
    {
      DigestSends(Abs(), k, msg);
      hide ResourcesOk, Elements, Linked, QidPool.Valid, QidPool.Free, Rcode, ReadU16, WithId;
      ghost var before := Abs();
      NextInRing(k);
      var n: Node := p.next;
      var q := n.q;
      handled := handled + [Handled(q.id, msg)];
      if !q.isDummy && !q.responded {
        var rcode := Rcode(msg);
        if rcode == 0 || q.awaited == 1 {
          sent := sent + [Sent(q.id, WithId(msg, q.clientQid), if rcode == 0 then Success else LastAwaited)];
          UpdateQuery(n, k, q.(responded := true));
        } else if q.failure == None {
          UpdateQuery(n, k, q.(failure := Some(msg)));
        }
      }
      DigestKeeps(before, maxSockets, k, msg);
    }

    /** The query behind p. */
    method NextNode(p: Node, ghost k: nat) returns (n: Node)
      requires Valid() && k + 1 < |ring| && p == ring[k]
      ensures n == ring[k + 1]
    {
      n := p.next;
    }

    lemma {:induction false} SentIs()
      requires Valid()
      ensures Abs().sent == sent
    {
    }

    lemma {:induction false} LinkedAt(k: nat)
      requires Valid() && k < |ring|
      ensures ring[k].next == if k + 1 < |ring| then ring[k + 1] else qlist
      ensures ring[k].next == qlist <==> k + 1 == |ring|
      ensures ring[0] == qlist
    {
      NextInRing(k);
    }

    lemma {:induction false} ListAt(k: nat)
      requires Valid() && k + 1 < |ring|
      ensures k < |Abs().list| && Abs().list[k] == ring[k + 1].q && ResourcesOk(Abs(), maxSockets)
    {
      hide ResourcesOk, Linked, QidPool.Valid, QidPool.Free;
    }

    lemma {:induction false} FoundNode(k: nat, clientQid: nat)
      requires Valid() && k + 1 < |ring| && ring[k + 1].q.clientQid == clientQid
      ensures Found(Abs().list, clientQid, ring[k + 1].q)
    {
      hide QidPool.Valid, QidPool.Free, Linked;
      IsFound(Abs(), maxSockets, k, clientQid);
    }

    /** udp_handle_request takes a query that could not be sent off the list. */
    method DropNext(p: Node, ghost k: nat)
      requires Valid() && k + 1 < |ring| && p == ring[k]
      modifies this, ring`q, ring`next, qids, qids.pool
      ensures Valid() && Abs() == Step(old(Abs()), maxSockets, Dropped(old(ring[k + 1].q.id)))
      ensures ring == old(ring[..k + 1] + ring[k + 2..])
    {
      hide ResourcesOk, Elements, Linked, QidPool.Valid, QidPool.Free, Step;
      DropIsStep(Abs(), maxSockets, k);
      DeleteNext(p, k);
    }

    /** send2current raises the number of replies a query waits for. */
    method AwaitServers(n: Node, ghost k: nat, servers: nat)
      requires Valid() && k + 1 < |ring| && n == ring[k + 1]
      modifies n`q
      ensures Valid() && Abs() == Step(old(Abs()), maxSockets, Forwarded(old(n.q.id), servers))
      ensures n.q == old(n.q).(awaited := old(n.q.awaited) + servers)
    {
      hide ResourcesOk, Elements, Linked, QidPool.Valid, QidPool.Free, Step;
      UpdateIsStep(Abs(), maxSockets, k, servers, 0);
      UpdateKeeps(Abs(), maxSockets, k, n.q.(awaited := n.q.awaited + servers));
      UpdateQuery(n, k, n.q.(awaited := n.q.awaited + servers));
    }

    /** udp_send_dummy limits its query's life. */
    method LimitLife(n: Node, ghost k: nat, ttl: int)
      requires Valid() && k + 1 < |ring| && n == ring[k + 1]
      modifies n`q
      ensures Valid() && Abs() == Step(old(Abs()), maxSockets, Limited(old(n.q.id), ttl))
    {
      hide ResourcesOk, Elements, Linked, QidPool.Valid, QidPool.Free, Step;
      UpdateIsStep(Abs(), maxSockets, k, 0, ttl);
      UpdateKeeps(Abs(), maxSockets, k, n.q.(ttl := ttl));
      UpdateQuery(n, k, n.q.(ttl := ttl));
    }

    /** The body of query_timeout's loop for an expired query. */
    method ExpireNext(p: Node, ghost k: nat)
      requires Valid() && k + 1 < |ring| && p == ring[k]
      modifies this, ring`q, ring`next, qids, qids.pool
      ensures Valid() && Abs() == Expire(old(Abs()), k) && ring == old(ring[..k + 1] + ring[k + 2..])
      ensures var q := old(ring[k + 1].q);
        if q.failure.Some? && !q.responded then
          2 <= |q.failure.value| ==>
            sent == old(sent) + [Sent(q.id, [q.clientQid % 256, q.clientQid / 256 % 256] + q.failure.value[2..], Expired)]
        else sent == old(sent)
    {
      hide ResourcesOk, Elements, Linked, QidPool.Valid, QidPool.Free, WithId, Delete;
      ghost var before := Abs();
      NextInRing(k);
      var n: Node := p.next;
      if n.q.failure.Some? && !n.q.responded {
        WithIdIs(n.q.failure.value, n.q.clientQid);
        sent := sent + [Sent(n.q.id, WithId(n.q.failure.value, n.q.clientQid), Expired)];
        HistoryIsFree(before, Abs(), maxSockets);
      }
      DeleteNext(p, k);
    }

    /** One turn of query_timeout's loop, at the query behind p: where the cursor goes. */
    method TimeoutTurn(p: Node, ghost k: nat, now: int) returns (next: Node, ghost j: nat)
      requires Valid() && k + 1 < |ring| && p == ring[k]
      modifies this, ring`q, ring`next, qids, qids.pool
      ensures Valid() && j < |ring| && next == ring[j] && Sweep(Abs(), j, now) == Sweep(old(Abs()), k, now)
      ensures |ring| < |old(ring)| || (|ring| == |old(ring)| && j == k + 1)
      ensures forall i :: 0 <= i < |ring| ==> ring[i] in old(ring)
    {
      hide ResourcesOk, Elements, Linked, QidPool.Valid, QidPool.Free, Expire;
      NextInRing(k);
      var n: Node := p.next;
      if IsExpired(n.q, now) {
        ghost var list := ring;
        ExpireNext(p, k);
        NextInRing(k);
        assert forall i :: 0 <= i < |ring| ==> ring[i] == list[if i <= k then i else i + 1];
        j := if k + 1 == |ring| then 0 else k + 1;
      } else {
        j := k + 1;
      }
      AtHead();
      next := p.next;
    }

    lemma {:induction false} AtHead()
      requires Linked()
      ensures ring != [] && ring[0] == qlist
    {
    }

    /** query_timeout: a query stays if it was asked for no longer ago than its ttl, the first one that
        was goes, and the others keep their order, that of their numbers. */
    method QueryTimeout(now: int)
      requires Valid()
      modifies this, ring`q, ring`next, qids, qids.pool
      ensures Valid() && Abs() == Step(old(Abs()), maxSockets, Tick(now)) == Sweep(old(Abs()), 0, now)
      ensures forall q :: q in old(Abs()).list && now - q.clientTime <= q.ttl ==> q in Abs().list
      ensures forall q :: q in Abs().list ==> q in old(Abs()).list
      ensures var list := old(Abs()).list;
        forall k ::
          (0 <= k < |list| && now - list[k].clientTime > list[k].ttl
           && forall i :: 0 <= i < k ==> now - list[i].clientTime <= list[i].ttl) ==> list[k] !in Abs().list
      ensures var list := Abs().list; forall i, j :: 0 <= i < j < |list| ==> list[i].id < list[j].id
      ensures forall n :: n in ring ==> n in old(ring)
    {
      hide ResourcesOk, Elements, Linked, QidPool.Valid, QidPool.Free, Sweep, ReadU16;
      ghost var before := Abs();
      ghost var nodes := ring;
      var p: Node := qlist;
      ghost var k: nat := 0;
      AtHead();
      NextInRing(0);
      while p.next != qlist
        invariant Valid() && k < |ring| && p == ring[k]
        invariant Sweep(Abs(), k, now) == Sweep(before, 0, now)
        invariant p.next == qlist <==> k + 1 == |ring|
        invariant forall i :: 0 <= i < |ring| ==> ring[i] in nodes
        decreases |ring|, |ring| - k
      {
        p, k := TimeoutTurn(p, k, now);
        NextInRing(k);
      }
      SweepIsTick(Abs(), maxSockets, k, now);
      SweepIsTick(before, maxSockets, 0, now);
    }
  }

  /** What a sweep is, in times. */
  lemma {:induction false} SweepIsTick(s: State, max: nat, k: nat, now: int)
    requires ResourcesOk(s, max)
    ensures k >= |s.list| ==> Sweep(s, k, now) == s
    ensures Step(s, max, Tick(now)) == Sweep(s, 0, now)
    ensures forall i, j :: 0 <= i < j < |s.list| ==> s.list[i].id < s.list[j].id
    ensures var t := Sweep(s, 0, now);
      && (forall q :: q in s.list && now - q.clientTime <= q.ttl ==> q in t.list)
      && (forall q :: q in t.list ==> q in s.list)
      && (forall i ::
           (0 <= i < |s.list| && now - s.list[i].clientTime > s.list[i].ttl
            && forall j :: 0 <= j < i ==> now - s.list[j].clientTime <= s.list[j].ttl) ==> s.list[i] !in t.list)
  {
    QuerySweep.SweepIsInTime(s, now);
  }

  /** check_reply (check.c): a whole header, Z clear, QR set. */
  predicate CheckReply(msg: seq<byte>) {
    12 <= |msg| && msg[3] / 64 % 2 == 0 && msg[2] >= 128
  }

  /** In the flags word of RFC 1035 section 4.1.1: QR is the highest bit, and Z here is bit six. */
  lemma {:induction false} CheckReplyIs(msg: seq<byte>)
    ensures CheckReply(msg) <==> 12 <= |msg| && ReadU16(msg, 2) >= 0x8000 && ReadU16(msg, 2) / 0x40 % 2 == 0
  {
    if 12 <= |msg| {
      assert ReadU16(msg, 2) == msg[2] as int * 256 + msg[3];
      assert ReadU16(msg, 2) / 0x40 == msg[2] as int * 4 + msg[3] as int / 0x40;
    }
  }

  /** What arrives for a query: a well-formed reply, or something else. */
  function Arrival(id: nat, received: Option<seq<byte>>): Event {
    if received.Some? && CheckReply(received.value) then GoodReply(id, received.value) else BadReply(id)
  }

  lemma {:induction false} ArrivalIsStep(s: State, max: nat, k: nat, received: Option<seq<byte>>)
    requires ResourcesOk(s, max) && k < |s.list|
    ensures Possible(s, max, Arrival(s.list[k].id, received))
    ensures Step(s, max, Arrival(s.list[k].id, received)) ==
      if received.Some? && CheckReply(received.value) then HandleReply(s, k, received.value) else CountDown(s, k)
  {
    QueryReplies.LiveAt(s, k);
    hide HandleReply, CountDown;
  }

  /** The query is the one on the list with the client's ID. */
  predicate Found(list: seq<Query>, clientQid: nat, q: Query) {
    FindClient(list, clientQid) < |list| && list[FindClient(list, clientQid)] == q
  }

  lemma {:induction false} IsFound(s: State, max: nat, k: nat, clientQid: nat)
    requires ResourcesOk(s, max) && k < |s.list| && s.list[k].clientQid == clientQid
    ensures Found(s.list, clientQid, s.list[k])
  {
    hide QidsOk, SocksOk;
    var j := FindClient(s.list, clientQid);
    assert j <= k;
  }

  lemma {:induction false} DigestSends(s: State, k: nat, msg: seq<byte>)
    requires k < |s.list|
    ensures var q, sent := s.list[k], Digest(s, k, msg).sent;
      12 <= |msg| ==>
        if !q.isDummy && !q.responded && (ReadU16(msg, 2) % 16 == 0 || q.awaited == 1) then
          sent == s.sent + [Sent(q.id, [q.clientQid % 256, q.clientQid / 256 % 256] + msg[2..],
                                 if ReadU16(msg, 2) % 16 == 0 then Success else LastAwaited)]
        else sent == s.sent
  {
    if 12 <= |msg| {
      RcodeIsInFlags(msg);
      WithIdIs(msg, s.list[k].clientQid);
    }
    hide Rcode, ReadU16, WithId;
  }

  lemma {:induction false} DigestKeepsAwaited(s: State, k: nat, msg: seq<byte>)
    requires k < |s.list|
    ensures Digest(s, k, msg).list[k].awaited == s.list[k].awaited
  {
  }

  lemma {:induction false} DropIsStep(s: State, max: nat, k: nat)
    requires ResourcesOk(s, max) && k < |s.list|
    ensures Step(s, max, Dropped(s.list[k].id)) == Delete(s, k)
  {
    QueryReplies.LiveAt(s, k);
    hide Delete;
  }

  lemma {:induction false} UpdateIsStep(s: State, max: nat, k: nat, servers: nat, ttl: int)
    requires ResourcesOk(s, max) && k < |s.list|
    ensures Step(s, max, Forwarded(s.list[k].id, servers)) == Update(s, k, s.list[k].(awaited := s.list[k].awaited + servers))
    ensures Step(s, max, Limited(s.list[k].id, ttl)) == Update(s, k, s.list[k].(ttl := ttl))
  {
    QueryReplies.LiveAt(s, k);
  }

  /** The request of a client, or of the daemon itself, for which the system hands out avail. */
  function Asking(clientQid: nat, isDummy: bool, avail: seq<int>, now: int, ttl: int): Event {
    var want := SocketsWanted(isDummy);
    Request(clientQid, isDummy, avail[..if |avail| <= want then |avail| else want], 0, now, ttl)
  }

  ghost function SomeElement(s: set<nat>): (x: nat)
    ensures s != {} ==> x in s
  {
    if s == {} then 0 else var x :| x in s; x
  }

  lemma {:induction false} NoElements<T>()
    ensures Elements<T>([]) == {}
  {
  }

  lemma {:induction false} ElementsSnoc<T>(s: seq<T>, c: nat)
    requires c < |s|
    ensures Elements(s[..c + 1]) == Elements(s[..c]) + {s[c]}
    ensures Elements(s[..0]) == {}
  {
    assert s[..c + 1] == s[..c] + [s[c]];
  }

  lemma {:induction false} QidInUse(s: State, max: nat, k: nat)
    requires ResourcesOk(s, max) && k < |s.list|
    ensures s.list[k].myQid < QID_POOL_SIZE && s.list[k].myQid !in s.free
  {
    assert s.list[k].myQid in LiveQids(s.list);
  }
}
