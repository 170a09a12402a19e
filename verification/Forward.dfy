/** The forwarding part of udp_handle_request and the server side of udp_handle_reply (udp.c): the
    query list and the upstream servers together. */
module Forward {
  import opened Octets
  import opened QueryProtocol
  import opened QueryReplies
  import opened QueryResources
  import opened QueryTable
  import opened Servers
  import opened Relay

  /** Every query has three slots for servers, and the servers in them are servers of an interface. */
  ghost predicate AllKnown(t: QueryTable, r: Relay)
    reads t`ring, t.ring`srvList
  {
    forall i :: 0 <= i < |t.ring| ==> |t.ring[i].srvList| == 3 && r.Known(t.ring[i].srvList)
  }

  lemma {:induction false} SlotsKnown(t: QueryTable, r: Relay, k: nat)
    requires AllKnown(t, r) && k + 1 < |t.ring|
    ensures r.Known(t.ring[k + 1].srvList)
  {
  }

  lemma {:induction false} NobodyNoted(r: Relay)
    ensures r.Known(NO_SERVERS)
  {
  }

  // ---------------------------------------------------------------------------
  // Sending.
  // ---------------------------------------------------------------------------

  /** As many servers took the message as interfaces were used exactly if each ended with a server. */
  lemma {:induction false} EveryoneTookIff(srvList: seq<SrvNode?>)
    ensures Takers(srvList) <= |srvList|
    ensures Takers(srvList) == |srvList| <==> null !in srvList
    ensures Takers(srvList) > 0 <==> Taken(srvList)
  {
    if srvList != [] {
      var front, last := srvList[..|srvList| - 1], srvList[|srvList| - 1];
      EveryoneTookIff(front);
      TakenSnoc(front, last);
      assert srvList == front + [last];
    }
  }

  /** What send2current says and does: see Relay. */
  ghost predicate SentResult(before: seq<Face>, after: seq<Face>, r: Relay, isDummy: bool, oracle: nat -> bool,
                             matched: seq<string>, defaults: seq<string>, headHasCurrent: bool,
                             used: seq<nat>, srvList: seq<SrvNode?>, more: bool)
  {
    && used == Chosen(r.Names(), 0, if isDummy then 1 else 3, matched, defaults)
    && AllSent(before, after, used, srvList) && Loaded(before)
    && (Taken(srvList) <==> CanTake(before, used, oracle, r.reactivateInterval != 0))
    && Takers(srvList) == ServedCount(before, used, oracle, r.reactivateInterval != 0)
    && (more <==> Reported(before, used, if isDummy then 1 else 3, headHasCurrent))
  }

  /** Sending changes nothing about the queries. */
  method SendOnly(t: QueryTable, r: Relay, isDummy: bool, oracle: nat -> bool, now: int, matched: seq<string>,
                  defaults: seq<string>, headHasCurrent: bool)
    returns (used: seq<nat>, srvList: seq<SrvNode?>, more: bool)
    requires t.Valid() && r.Valid() && now > 0
    requires r.reactivateInterval != 0 || forall a: nat :: SucceedsFrom(oracle, a)
    modifies r.infs, r.nodes
    ensures t.Valid() && t.Abs() == old(t.Abs()) && r.Known(srvList)
    ensures r.Valid() && SentResult(old(r.Faces()), r.Faces(), r, isDummy, oracle, matched, defaults, headHasCurrent, used,
                                    srvList, more)
  {
    hide QueryTable.Valid, QueryTable.Abs, Relay.Valid, Reported, CanTake, Relay.Faces, Chosen, AllSent, Loaded;
    r.FacesAreLoaded();
    used, srvList, more := r.Send2Current(oracle, now, isDummy, matched, defaults, headHasCurrent);
    r.NotedAreServers(old(r.Faces()), used, srvList);
  }

  /** srv_list after sending: a slot changes only if its interface ended with a server. */
  function Overlay(slots: seq<SrvNode?>, srvList: seq<SrvNode?>): (o: seq<SrvNode?>)
    ensures |o| == |slots|
  {
    seq(|slots|, c requires 0 <= c < |slots| => if c < |srvList| && srvList[c] != null then srvList[c] else slots[c])
  }

  method NoteServers(n: Node, srvList: seq<SrvNode?>)
    requires |srvList| <= |n.srvList|
    modifies n`srvList
    ensures n.srvList == Overlay(old(n.srvList), srvList)
  {
    for c := 0 to |srvList|
      invariant n.srvList == Overlay(old(n.srvList), srvList[..c])
    {
      if srvList[c] != null {
        n.srvList := n.srvList[c := srvList[c]];
      }
    }
    assert srvList[..|srvList|] == srvList;
  }

  lemma {:induction false} OverlayIsKnown(r: Relay, slots: seq<SrvNode?>, srvList: seq<SrvNode?>)
    requires r.Known(slots) && r.Known(srvList)
    ensures r.Known(Overlay(slots, srvList))
  {
  }

  /** send2current for query k: it waits for one more reply from every interface used.  That is the
      number of servers that took the message exactly if every interface used was served. */
  method SendQuery(t: QueryTable, r: Relay, n: Node, ghost k: nat, oracle: nat -> bool, now: int, matched: seq<string>,
                   defaults: seq<string>, headHasCurrent: bool)
    returns (used: seq<nat>, srvList: seq<SrvNode?>, more: bool)
    requires t.Valid() && k + 1 < |t.ring| && n == t.ring[k + 1] && r.Valid() && AllKnown(t, r) && now > 0
    requires r.reactivateInterval != 0 || forall a: nat :: SucceedsFrom(oracle, a)
    modifies n`q, n`srvList, r.infs, r.nodes
    ensures t.Valid() && r.Valid() && AllKnown(t, r) && n.srvList == Overlay(old(n.srvList), srvList)
    ensures SentResult(old(r.Faces()), r.Faces(), r, old(n.q.isDummy), oracle, matched, defaults, headHasCurrent, used,
                       srvList, more)
    ensures t.Abs() == Step(old(t.Abs()), t.maxSockets, Forwarded(old(n.q.id), |used|))
    ensures n.q == old(n.q).(awaited := old(n.q.awaited) + |used|) && |used| == |srvList| <= 3
    ensures n.q.awaited == old(n.q.awaited) + Takers(srvList) <==>
      AllServed(old(r.Faces()), used, oracle, r.reactivateInterval != 0)
    ensures r.reactivateInterval == 0 ==>
      (n.q.awaited == old(n.q.awaited) + Takers(srvList) <==> NoneMissing(old(r.Faces()), used))
    ensures !NoneMissing(old(r.Faces()), used) ==> Takers(srvList) < |used|
  {
    hide QueryTable.Valid, QueryTable.Abs, Relay.Valid, Step, SentResult, Relay.Faces, NoneMissing, Relay.Known, AllServed;
    ghost var before := r.Faces();
    assert |t.ring[k + 1].srvList| == 3 && r.Known(t.ring[k + 1].srvList);
    used, srvList, more := SendOnly(t, r, n.q.isDummy, oracle, now, matched, defaults, headHasCurrent);
    SentCounts(before, r.Faces(), r, n.q.isDummy, oracle, matched, defaults, headHasCurrent, used, srvList, more);
    OverlayIsKnown(r, n.srvList, srvList);
    NoteServers(n, srvList);
    t.AwaitServers(n, k, |used|);
  }

  /** Every used interface ends with a server, by the state before and the outcomes of the attempts. */
  ghost predicate AllServed(before: seq<Face>, used: seq<nat>, oracle: nat -> bool, reactivate: bool) {
    (forall c :: 0 <= c < |used| ==> used[c] < |before|) && ServedCount(before, used, oracle, reactivate) == |used|
  }

  lemma {:induction false} SentCounts(before: seq<Face>, after: seq<Face>, r: Relay, isDummy: bool, oracle: nat -> bool,
                                      matched: seq<string>, defaults: seq<string>, headHasCurrent: bool,
                                      used: seq<nat>, srvList: seq<SrvNode?>, more: bool)
    requires SentResult(before, after, r, isDummy, oracle, matched, defaults, headHasCurrent, used, srvList, more)
    ensures |used| == |srvList| <= 3 && Takers(srvList) <= |used|
    ensures Takers(srvList) == |used| <==> AllServed(before, used, oracle, r.reactivateInterval != 0)
    ensures r.reactivateInterval == 0 ==> (Takers(srvList) == |used| <==> NoneMissing(before, used))
    ensures !NoneMissing(before, used) ==> Takers(srvList) < |used|
  {
    hide Chosen, Taken, Reported, CanTake, NoneMissing, ServedCount, Loaded, SentOn;
    EveryoneTookIff(srvList);
    assert forall c :: 0 <= c < |used| ==> used[c] < |before|;
    AllServedNeeds(before, used, oracle, r.reactivateInterval != 0);
  }

  // ---------------------------------------------------------------------------
  // A request.
  // ---------------------------------------------------------------------------

  /** What becomes of the query behind p: sent, and dropped if that is reported as a failure. */
  method SendOrDrop(t: QueryTable, r: Relay, p: Node, ghost k: nat, oracle: nat -> bool, now: int, matched: seq<string>,
                    defaults: seq<string>, headHasCurrent: bool, dontKnow: bool)
    returns (dropped: bool, used: seq<nat>, srvList: seq<SrvNode?>, more: bool)
    requires t.Valid() && k + 1 < |t.ring| && p == t.ring[k] && r.Valid() && AllKnown(t, r) && now > 0
    requires r.reactivateInterval != 0 || forall a: nat :: SucceedsFrom(oracle, a)
    modifies t, t.ring, t.qids, t.qids.pool, r.infs, r.nodes
    ensures t.Valid() && r.Valid() && AllKnown(t, r) && |used| == |srvList| <= 3
    ensures dropped <==> !more && dontKnow
    ensures SentResult(old(r.Faces()), r.Faces(), r, old(t.ring[k + 1].q.isDummy), oracle, matched, defaults, headHasCurrent,
                       used, srvList, more)
    ensures t.Abs() == AfterSend(old(t.Abs()), t.maxSockets, old(t.ring[k + 1].q.id), |used|, dropped)
  {
    hide QueryTable.Valid, QueryTable.Abs, QueryTable.Linked, Relay.Valid, Step, SentResult, Relay.Faces, QidPool.Free,
      NoneMissing, AllServed, Relay.Known;
    ghost var before := r.Faces();
    dropped := false;
    var n := t.NextNode(p, k);
    ghost var isDummy := n.q.isDummy;
    used, srvList, more := SendQuery(t, r, n, k, oracle, now, matched, defaults, headHasCurrent);
    if !more && dontKnow {
      ghost var ring := t.ring;
      t.DropNext(p, k);
      assert forall i :: 0 <= i < |t.ring| ==> t.ring[i] == ring[if i <= k then i else i + 1];
      dropped := true;
    }
    assert SentResult(before, r.Faces(), r, isDummy, oracle, matched, defaults, headHasCurrent, used, srvList, more);
  }

  function AfterSend(s: State, max: nat, id: nat, servers: nat, dropped: bool): State {
    var sent := Step(s, max, Forwarded(id, servers));
    if dropped then Step(sent, max, Dropped(id)) else sent
  }

  /** Lines 249-292 of udp.c, for a query that has no local answer.  dontKnow says that
      master_dontknow makes a reply of it; then a query that send2current reports as not sent is
      taken off the list again, and nothing is sent to the client. */
  method UdpForward(t: QueryTable, r: Relay, clientQid: nat, avail: seq<int>, rand: nat, now: int, ttl: int,
                    oracle: nat -> bool, matched: seq<string>, defaults: seq<string>, headHasCurrent: bool, dontKnow: bool)
    returns (added: bool, dropped: bool, used: seq<nat>, srvList: seq<SrvNode?>, more: bool, ghost asked: Query, ghost pick: nat)
    requires t.Valid() && (t.qids.Free() != {} ==> rand <= t.qids.ptr) && r.Valid() && AllKnown(t, r) && now > 0
    requires FreshSocks(t.Abs(), false, Asking(clientQid, false, avail, now, ttl).socks)
    requires r.reactivateInterval != 0 || forall a: nat :: SucceedsFrom(oracle, a)
    modifies t, t.ring, t.qids, t.qids.pool, r.infs, r.nodes
    ensures t.Valid() && r.Valid() && AllKnown(t, r) && |used| == |srvList| <= 3
    ensures old(t.Abs()).free != {} ==> pick in old(t.Abs()).free
    ensures t.Abs() ==
      AfterForward(old(t.Abs()), t.maxSockets, Asking(clientQid, false, avail, now, ttl).(pick := pick), added, asked.id,
                   |used|, dropped)
    ensures added ==> (dropped <==> !more && dontKnow) && SentResult(old(r.Faces()), r.Faces(), r, asked.isDummy, oracle,
                       matched, defaults, headHasCurrent, used, srvList, more)
    ensures added ==>
      Found(Step(old(t.Abs()), t.maxSockets, Asking(clientQid, false, avail, now, ttl).(pick := pick)).list, clientQid, asked)
    ensures !added ==> !dropped && used == []
  {
    hide QueryTable.Valid, QueryTable.Abs, QueryTable.Linked, Relay.Valid, Step, SentResult, Relay.Faces, FreshSocks,
      QidPool.Free, AfterSend, Relay.Known;
    ghost var before := r.Faces();
    added, dropped, used, srvList, more, asked := false, false, [], [], false, t.qlist.q;
    NobodyNoted(r);
    var p: Node?;
    p, pick := t.QueryAdd(clientQid, false, avail, rand, now, ttl);
    assert AllKnown(t, r);
    if p == null {
      return;
    }
    ghost var k: nat :| k < |t.ring| - 1 && p == t.ring[k] && t.ring[k + 1].q.clientQid == clientQid;
    added := true;
    assert r.Faces() == before;
    asked := t.ring[k + 1].q;
    t.FoundNode(k, clientQid);
    dropped, used, srvList, more := SendOrDrop(t, r, p, k, oracle, now, matched, defaults, headHasCurrent, dontKnow);
  }

  /** The steps of the multiplexer a forwarded request amounts to. */
  function AfterForward(s: State, max: nat, request: Event, added: bool, id: nat, servers: nat, dropped: bool): State {
    var asked := Step(s, max, request);
    if added then AfterSend(asked, max, id, servers, dropped) else asked
  }

  /** Forwarding continues a run of the multiplexer, with at most three more events. */
  lemma {:induction false} ForwardMakesRun(max: nat, es: seq<Event>, request: Event, added: bool, id: nat, servers: nat,
                                           dropped: bool)
    returns (more: seq<Event>)
    requires PossibleRun(max, es) && Possible(Run(max, es), max, request) && (dropped ==> added)
    ensures es <= more && |more| <= |es| + 3 && PossibleRun(max, more)
    ensures Run(max, more) == AfterForward(Run(max, es), max, request, added, id, servers, dropped)
  {
    hide Step, Run, PossibleRun;
    OneMoreStep(max, es, request);
    more := es + [request];
    if added {
      OneMoreStep(max, more, Forwarded(id, servers));
      more := more + [Forwarded(id, servers)];
      if dropped {
        OneMoreStep(max, more, Dropped(id));
        more := more + [Dropped(id)];
      }
    }
  }

  // ---------------------------------------------------------------------------
  // A request in a run.
  // ---------------------------------------------------------------------------

  /** A request for a new query, with its sockets, leaves a query that waits for all interfaces used. */
  lemma {:induction false} NewQueryWaits(s: State, max: nat, request: Event, asked: Query, servers: nat)
    requires ListOk(s) && request.Request? && FindClient(s.list, request.clientQid) == |s.list|
    requires Found(Step(s, max, request).list, request.clientQid, asked)
    ensures asked.id == |s.born| && asked.isDummy == request.isDummy
    ensures var t := AfterForward(s, max, request, true, asked.id, servers, false);
      IsLive(t, asked.id) && LiveQuery(t, asked.id) == asked.(awaited := servers)
  {
    var a := Step(s, max, request);
    var j := FindClient(a.list, request.clientQid);
    assert forall i :: 0 <= i < |s.list| ==> a.list[i] == s.list[i];
    assert j == |s.list|;
    FirstWithId(a.list, j);
    var t := Update(a, j, a.list[j].(awaited := servers));
    FirstWithId(t.list, j);
  }

  lemma {:induction false} FirstWithId(list: seq<Query>, j: nat)
    requires j < |list| && forall i :: 0 <= i < j ==> list[i].id < list[j].id
    ensures FindId(list, list[j].id) == j
  {
    var k := FindId(list, list[j].id);
    assert k <= j;
  }

  lemma {:induction false} RequestIsPossible(s: State, max: nat, clientQid: nat, avail: seq<int>, now: int, ttl: int, pick: nat)
    requires FreshSocks(s, false, Asking(clientQid, false, avail, now, ttl).socks) && (s.free != {} ==> pick in s.free)
    ensures Possible(s, max, Asking(clientQid, false, avail, now, ttl).(pick := pick))
  {
    hide FreshSocks;
  }

  /** UdpForward in a run of the multiplexer: the run goes on, and what holds over all runs holds of
      where it leads.  A new query that is kept waits for all interfaces used. */
  method ForwardInRun(t: QueryTable, r: Relay, clientQid: nat, avail: seq<int>, rand: nat, now: int, ttl: int,
                      oracle: nat -> bool, matched: seq<string>, defaults: seq<string>, headHasCurrent: bool, dontKnow: bool,
                      ghost es: seq<Event>)
    returns (added: bool, dropped: bool, used: seq<nat>, srvList: seq<SrvNode?>, ghost asked: Query, ghost more: seq<Event>)
    requires t.Valid() && (t.qids.Free() != {} ==> rand <= t.qids.ptr) && r.Valid() && AllKnown(t, r) && now > 0
    requires FreshSocks(t.Abs(), false, Asking(clientQid, false, avail, now, ttl).socks)
    requires r.reactivateInterval != 0 || forall a: nat :: SucceedsFrom(oracle, a)
    requires PossibleRun(t.maxSockets, es) && Run(t.maxSockets, es) == t.Abs()
    modifies t, t.ring, t.qids, t.qids.pool, r.infs, r.nodes
    ensures t.Valid() && r.Valid() && AllKnown(t, r)
    ensures es <= more && PossibleRun(t.maxSockets, more) && Run(t.maxSockets, more) == t.Abs()
    ensures added && !dropped && FindClient(old(t.Abs()).list, clientQid) == |old(t.Abs()).list| ==>
      IsLive(t.Abs(), asked.id) && LiveQuery(t.Abs(), asked.id) == asked.(awaited := |used|) && !asked.isDummy
    ensures added ==> Loaded(old(r.Faces())) && InRange(old(r.Faces()), used)
    ensures added ==> Takers(srvList) == ServedCount(old(r.Faces()), used, oracle, r.reactivateInterval != 0)
  {
    ghost var before, faces := t.Abs(), r.Faces();
    hide QueryTable.Valid, QueryTable.Abs, QueryTable.Linked, Relay.Valid, Step, Relay.Faces, FreshSocks, QidPool.Free,
      AfterForward, PossibleRun, Run, SentResult, IsLive, LiveQuery, Found, FindClient, ServedCount, Loaded, AllKnown,
      Possible, Asking;
    ghost var result, pick;
    added, dropped, used, srvList, result, asked, pick := UdpForward(t, r, clientQid, avail, rand, now, ttl, oracle, matched,
      defaults, headHasCurrent, dontKnow);
    ghost var request := Asking(clientQid, false, avail, now, ttl).(pick := pick);
    RequestIsPossible(before, t.maxSockets, clientQid, avail, now, ttl, pick);
    more := ForwardMakesRun(t.maxSockets, es, request, added, asked.id, |used|, dropped);
    if added {
      SentIsCounted(faces, r.Faces(), r, asked.isDummy, oracle, matched, defaults, headHasCurrent, used, srvList, result);
      if !dropped && FindClient(before.list, clientQid) == |before.list| {
        RunKeepsHistory(t.maxSockets, es);
        NewQueryWaits(before, t.maxSockets, request, asked, |used|);
      }
    }
  }

  ghost predicate InRange(before: seq<Face>, used: seq<nat>) {
    forall c :: 0 <= c < |used| ==> used[c] < |before|
  }

  lemma {:induction false} SentIsCounted(before: seq<Face>, after: seq<Face>, r: Relay, isDummy: bool, oracle: nat -> bool,
                                         matched: seq<string>, defaults: seq<string>, headHasCurrent: bool,
                                         used: seq<nat>, srvList: seq<SrvNode?>, more: bool)
    requires SentResult(before, after, r, isDummy, oracle, matched, defaults, headHasCurrent, used, srvList, more)
    ensures Loaded(before) && InRange(before, used)
    ensures Takers(srvList) == ServedCount(before, used, oracle, r.reactivateInterval != 0)
  {
    hide Chosen, Taken, Reported, CanTake, ServedCount, Loaded, SentOn;
    assert forall c :: 0 <= c < |used| ==> used[c] < |before|;
  }

  /** A query that waits for all interfaces used, and gets at most one well-formed reply from each
      server that took it, is ended by replies only if every used interface was served, and then by
      the last one.  Otherwise it is still there, and waits for the interfaces that were not served. */
  lemma {:induction false} KeptQueryEndsIff(max: nat, es: seq<Event>, m: nat, n: nat, id: nat, before: seq<Face>,
                                            used: seq<nat>, oracle: nat -> bool, reactivate: bool)
    requires max <= QID_POOL_SIZE && PossibleRun(max, es) && m <= n <= |es| && used != []
    requires IsLive(Run(max, es[..m]), id) && !LiveQuery(Run(max, es[..m]), id).isDummy
    requires LiveQuery(Run(max, es[..m]), id).awaited == |used| && Undisturbed(max, es, m, n, id)
    requires Loaded(before) && InRange(before, used)
    requires RepliesFor(es, m, n, id) <= ServedCount(before, used, oracle, reactivate)
    ensures !IsLive(Run(max, es[..n]), id) <==>
      AllServed(before, used, oracle, reactivate) && RepliesFor(es, m, n, id) == |used|
    ensures !AllServed(before, used, oracle, reactivate) || !NoneMissing(before, used) ==>
      && IsLive(Run(max, es[..n]), id)
      && LiveQuery(Run(max, es[..n]), id).awaited >= |used| - ServedCount(before, used, oracle, reactivate) > 0
  {
    hide Run, PossibleRun, IsLive, LiveQuery, Undisturbed, RepliesFor, Loaded, ServedCount, NoneMissing, SentOf;
    KRepliesEndTheQuery(max, es, m, n, id, |used|);
    AllServedNeeds(before, used, oracle, reactivate);
  }

  // ---------------------------------------------------------------------------
  // A reply.
  // ---------------------------------------------------------------------------

  /** What recvmsg gives for a ready socket. */
  datatype Received = Failed | Oversized | Packet(msg: seq<byte>)

  function Message(received: Received): Option<seq<byte>> {
    if received.Packet? then Some(received.msg) else None
  }

  predicate WellFormed(received: Received) {
    received.Packet? && CheckReply(received.msg)
  }

  /** Who counts as alive: the sender, and with the last reply everyone noted. */
  function Alive(sender: SrvNode?, slots: seq<SrvNode?>, last: bool): set<SrvNode> {
    (if sender == null then {} else {sender as SrvNode}) + if last then Noted(slots) else {}
  }

  /** A server that did not send a reply counts as alive after it exactly if it was noted and the reply
      is the last awaited one. */
  lemma {:induction false} SilentServerIsAliveIff(sender: SrvNode?, slots: seq<SrvNode?>, last: bool, s: SrvNode)
    requires s != sender
    ensures s in Alive(sender, slots, last) <==> last && s in slots
  {
    if s in slots {
      var c :| 0 <= c < |slots| && slots[c] == s;
      assert slots[c] as SrvNode in Noted(slots);
    }
  }

  /** For instance with two servers of which one answers twice: its second reply is the last one. */
  lemma {:induction false} SecondReplyIsLast(s: State, max: nat, k: nat, msg: seq<byte>)
    requires ResourcesOk(s, max) && k < |s.list| && s.list[k].awaited == 2
    ensures var t := Step(s, max, GoodReply(s.list[k].id, msg));
      k < |t.list| && t.list[k].id == s.list[k].id && t.list[k].awaited == 1
  {
    LiveAt(s, k);
    DigestKeepsAwaited(s, k, msg);
  }

  /** Every interface has a server. */
  ghost predicate Staffed(r: Relay) {
    r.infs != [] && |r.rings| == |r.infs| && forall k :: 0 <= k < |r.infs| ==> |r.rings[k]| > 1
  }

  /** Who counts as the sender: the first server with the address and the interface the packet came
      from, if the system told them. */
  ghost predicate IsSenderOf(r: Relay, received: Received, from: Option<(string, nat)>, sender: SrvNode?)
    requires |r.rings| == |r.infs|
    reads set k, i | 0 <= k < |r.rings| && 0 <= i < |r.rings[k]| :: r.rings[k][i]
  {
    if received.Packet? && from.Some? then r.FirstFrom(from.value.0, from.value.1, sender) else sender == null
  }

  /** reply_recv: the server a packet came from, if it is known, counts as alive.  from is where the
      packet came from, if the system told. */
  method ReviveSender(r: Relay, received: Received, from: Option<(string, nat)>)
    returns (sender: SrvNode?, ghost alive: set<SrvNode>)
    requires r.Valid() && Staffed(r)
    modifies r.nodes`inactive, r.nodes`sendTime
    ensures r.Valid() && IsSenderOf(r, received, from, sender)
    ensures forall k :: 0 <= k < |r.infs| ==> r.RevivedAs(k, old(r.NodeFields(k)), alive)
    ensures alive == Alive(sender, [], false)
  {
    hide Relay.Valid, Relay.RevivedAs, Relay.NodeFields;
    sender, alive := null, {};
    r.NobodyRevived();
    if received.Packet? && from.Some? {
      ghost var k, n;
      sender, k, n := r.SearchServer(from.value.0, from.value.1);
      r.FoundIsFirst(from.value.0, from.value.1, sender, k, n);
      if sender != null {
        r.FoundIsServer(sender, k, n);
        alive := {sender};
        assert forall k :: 0 <= k < |r.infs| ==> r.NodeFields(k) == old(r.NodeFields(k));
        r.ReviveServer(sender);
      }
    }
  }

  /** The server side of udp_handle_reply: the sender counts as alive, and with the last awaited reply
      all servers noted for the query. */
  method ReviveServers(r: Relay, slots: seq<SrvNode?>, received: Received, from: Option<(string, nat)>, last: bool)
    returns (sender: SrvNode?, ghost alive: set<SrvNode>)
    requires r.Valid() && Staffed(r) && r.Known(slots)
    modifies r.nodes`inactive, r.nodes`sendTime
    ensures r.Valid() && IsSenderOf(r, received, from, sender)
    ensures forall j :: 0 <= j < |r.infs| ==> r.RevivedAs(j, old(r.NodeFields(j)), alive)
    ensures alive == Alive(sender, slots, last)
  {
    hide Relay.Valid, Relay.Known, Noted;
    ghost var first;
    sender, first := ReviveSender(r, received, from);
    alive := first;
    if last {
      label noting:
      r.ReviveNoted(slots);
      alive := first + Noted(slots);
      forall j | 0 <= j < |r.infs| ensures r.RevivedAs(j, old(r.NodeFields(j)), alive) {
        r.RevivedBoth(j, old(r.NodeFields(j)), old@noting(r.NodeFields(j)), first, Noted(slots));
      }
    }
  }

  /** That changes nothing about the queries. */
  method ReviveOnly(t: QueryTable, r: Relay, slots: seq<SrvNode?>, received: Received, from: Option<(string, nat)>, last: bool)
    returns (sender: SrvNode?, ghost alive: set<SrvNode>)
    requires t.Valid() && AllKnown(t, r) && r.Valid() && Staffed(r) && r.Known(slots)
    modifies r.nodes`inactive, r.nodes`sendTime
    ensures t.Valid() && AllKnown(t, r) && t.Abs() == old(t.Abs())
    ensures r.Valid() && forall j :: 0 <= j < |r.infs| ==> r.RevivedAs(j, old(r.NodeFields(j)), alive)
    ensures IsSenderOf(r, received, from, sender) && alive == Alive(sender, slots, last)
  {
    hide *;
    sender, alive := ReviveServers(r, slots, received, from, last);
  }

  /** udp_handle_reply for the query behind p.  The server that answered counts as alive, and with the
      last awaited reply, if it is well-formed, so do all servers noted for the query, whether they
      answered or not. */
  method UdpHandleReply(t: QueryTable, r: Relay, p: Node, ghost k: nat, received: Received, from: Option<(string, nat)>)
    returns (sender: SrvNode?, ghost alive: set<SrvNode>)
    requires t.Valid() && k + 1 < |t.ring| && p == t.ring[k] && r.Valid() && AllKnown(t, r)
    requires Staffed(r)
    modifies t, t.ring`q, t.ring`next, t.qids, t.qids.pool, r.nodes`inactive, r.nodes`sendTime
    ensures t.Valid() && r.Valid() && AllKnown(t, r)
    ensures Possible(old(t.Abs()), t.maxSockets, Arrival(old(t.ring[k + 1].q.id), Message(received)))
    ensures t.Abs() == Step(old(t.Abs()), t.maxSockets, Arrival(old(t.ring[k + 1].q.id), Message(received)))
    ensures forall j :: 0 <= j < |r.infs| ==> r.RevivedAs(j, old(r.NodeFields(j)), alive)
    ensures alive == Alive(sender, old(t.ring[k + 1].srvList), WellFormed(received) && old(t.ring[k + 1].q.awaited) == 1)
    ensures IsSenderOf(r, received, from, sender)
    ensures t.ring == old(t.ring) || t.ring == old(t.ring[..k + 1] + t.ring[k + 2..])
    ensures SentFor(old(t.sent), t.sent, old(t.ring[k + 1].q), received)
  {
    hide QueryTable.Valid, QueryTable.Abs, QueryTable.Linked, Relay.Valid, Step, Possible, QidPool.Free, Relay.Known,
      Relay.NodeFields, Arrival, Noted, AllKnown, QidPool.Valid, Staffed, IsSenderOf, SentFor, Relay.RevivedAs;
    SlotsKnown(t, r, k);
    ghost var was := r.AllFields();
    var n := t.NextNode(p, k);
    var last := WellFormed(received) && n.q.awaited == 1;
    ghost var slots, id := n.srvList, n.q.id;
    assert slots == old(t.ring[k + 1].srvList);
    assert last <==> WellFormed(received) && old(t.ring[k + 1].q.awaited) == 1;
    sender, alive := ReviveOnly(t, r, n.srvList, received, from, last);
    assert t.ring[k + 1].q.id == id;
    forall j | 0 <= j < |r.infs| ensures r.RevivedAs(j, was[j], alive) {
      assert was[j] == old(r.NodeFields(j));
    }
    label revived:
    HandleStep(t, r, p, k, received);
    forall j | 0 <= j < |r.infs| ensures r.RevivedAs(j, was[j], alive) {
      assert old@revived(r.RevivedAs(j, was[j], alive));
      assert r.NodeFields(j) == old@revived(r.NodeFields(j));
    }
  }

  /** The query side is the step of the multiplexer. */
  method HandleStep(t: QueryTable, ghost r: Relay, p: Node, ghost k: nat, received: Received)
    requires t.Valid() && k + 1 < |t.ring| && p == t.ring[k] && AllKnown(t, r) && r.Valid()
    modifies t, t.ring`q, t.ring`next, t.qids, t.qids.pool
    ensures t.Valid() && AllKnown(t, r) && r.Valid()
    ensures forall j :: 0 <= j < |r.infs| ==> r.NodeFields(j) == old(r.NodeFields(j))
    ensures Possible(old(t.Abs()), t.maxSockets, Arrival(old(t.ring[k + 1].q.id), Message(received)))
    ensures t.Abs() == Step(old(t.Abs()), t.maxSockets, Arrival(old(t.ring[k + 1].q.id), Message(received)))
    ensures t.ring == old(t.ring) || t.ring == old(t.ring[..k + 1] + t.ring[k + 2..])
    ensures SentFor(old(t.sent), t.sent, old(t.ring[k + 1].q), received)
  {
    hide *;
    r.NobodyRevived();
    t.SentIs();
    ArrivalAt(t, k, received);
    HandleQuery(t, r, p, k, received);
    t.SentIs();
  }

  lemma {:induction false} ArrivalAt(t: QueryTable, k: nat, received: Received)
    requires t.Valid() && k + 1 < |t.ring|
    ensures Possible(t.Abs(), t.maxSockets, Arrival(t.ring[k + 1].q.id, Message(received)))
    ensures Step(t.Abs(), t.maxSockets, Arrival(t.ring[k + 1].q.id, Message(received))) ==
      if received.Packet? && CheckReply(received.msg) then HandleReply(t.Abs(), k, received.msg) else CountDown(t.Abs(), k)
    ensures SentFor(t.Abs().sent, Step(t.Abs(), t.maxSockets, Arrival(t.ring[k + 1].q.id, Message(received))).sent,
                    t.ring[k + 1].q, received)
  {
    t.ListAt(k);
    hide Step, Possible, HandleReply, CountDown, CheckReply, ResourcesOk, SentFor;
    ArrivalSends(t.Abs(), k, received);
    ArrivalIsStep(t.Abs(), t.maxSockets, k, Message(received));
  }

  /** What is sent to the client of what arrives, in the flags word of RFC 1035 section 4.1.1: a reply
      with QR set and Z clear is forwarded under the client's ID if the client is still unanswered, and
      either RCODE is zero or no other reply is awaited. */
  ghost predicate SentFor(before: seq<Sent>, after: seq<Sent>, q: Query, received: Received) {
    var forward := received.Packet? && 12 <= |received.msg| && !q.isDummy && !q.responded
      && ReadU16(received.msg, 2) >= 0x8000 && ReadU16(received.msg, 2) / 0x40 % 2 == 0
      && (ReadU16(received.msg, 2) % 16 == 0 || q.awaited == 1);
    if forward then
      after == before + [Sent(q.id, [q.clientQid % 256, q.clientQid / 256 % 256] + received.msg[2..],
                              if ReadU16(received.msg, 2) % 16 == 0 then Success else LastAwaited)]
    else after == before
  }

  lemma {:induction false} ArrivalSends(s: State, k: nat, received: Received)
    requires k < |s.list|
    ensures SentFor(s.sent, (if WellFormed(received) then HandleReply(s, k, received.msg) else CountDown(s, k)).sent, s.list[k],
                    received)
  {
    if received.Packet? {
      CheckReplyIs(received.msg);
      DigestSends(s, k, received.msg);
    }
    hide ReadU16, CheckReply, Digest;
  }

  /** For instance, if a client's query awaits two replies: a first one with flags 0x8180 (no error) is
      forwarded at once, and one with flags 0x8183 (no such name) is not. */
  lemma {:induction false} SuccessIsForwardedAtOnce(before: seq<Sent>, after: seq<Sent>, q: Query, msg: seq<byte>)
    requires 12 <= |msg| && !q.isDummy && !q.responded && q.awaited == 2 && SentFor(before, after, q, Packet(msg))
    ensures msg[2] == 0x81 && msg[3] == 0x80 ==> |after| == |before| + 1
    ensures msg[2] == 0x81 && msg[3] == 0x83 ==> after == before
  {
  }

  /** It digests a well-formed reply, then counts down. */
  method HandleQuery(t: QueryTable, ghost r: Relay, p: Node, ghost k: nat, received: Received)
    requires t.Valid() && k + 1 < |t.ring| && p == t.ring[k] && AllKnown(t, r)
    modifies t, t.ring`q, t.ring`next, t.qids, t.qids.pool
    ensures t.Valid() && AllKnown(t, r)
    ensures t.Abs() == if received.Packet? && CheckReply(received.msg) then HandleReply(old(t.Abs()), k, received.msg)
                       else CountDown(old(t.Abs()), k)
    ensures t.ring == old(t.ring) || t.ring == old(t.ring[..k + 1] + t.ring[k + 2..])
  {
    hide QueryTable.Valid, QueryTable.Abs, QueryTable.Linked, QidPool.Free, Digest, CountDown, ResourcesOk, Relay.Known;
    ghost var ring := t.ring;
    if received.Packet? && CheckReply(received.msg) {
      t.DigestReply(p, k, received.msg);
    }
    t.CountDownQuery(p, k);
    assert forall i :: 0 <= i < |t.ring| ==> t.ring[i] == ring[if i <= k || t.ring == ring then i else i + 1];
  }
}
