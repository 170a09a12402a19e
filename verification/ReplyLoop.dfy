/** The loop of run() over the ready sockets (relay.c lines 313-328) as it works on the query list. */
module ReplyLoop {
  import opened Octets
  import opened QueryProtocol
  import opened QueryReplies
  import opened QueryResources
  import opened QueryTable
  import opened Relay
  import opened Forward
  import opened ReplyRound

  /** What the loop depends on of the queries. */
  function Slots(list: seq<Query>): (r: seq<Slot>)
    ensures |r| == |list|
    ensures forall k :: 0 <= k < |r| ==> r[k] == Slot(list[k].socks, list[k].awaited, list[k].isDummy)
  {
    seq(|list|, k requires 0 <= k < |list| => Slot(list[k].socks, list[k].awaited, list[k].isDummy))
  }

  /** Whatever arrives for a query counts it down. */
  lemma {:induction false} ArrivalCounts(s: State, max: nat, k: nat, received: Option<seq<byte>>)
    requires ResourcesOk(s, max) && k < |s.list|
    ensures Slots(Step(s, max, Arrival(s.list[k].id, received)).list) == Count(Slots(s.list), k)
  {
    ArrivalIsStep(s, max, k, received);
    hide ResourcesOk, WithId, Step;
    if received.Some? && CheckReply(received.value) {
      DigestKeepsSlots(s, k, received.value);
      CountKeeps(Digest(s, k, received.value), k);
    } else {
      CountKeeps(s, k);
    }
  }

  lemma {:induction false} DigestKeepsSlots(s: State, k: nat, msg: seq<byte>)
    requires k < |s.list|
    ensures Slots(Digest(s, k, msg).list) == Slots(s.list)
  {
    hide WithId;
  }

  lemma {:induction false} CountKeeps(s: State, k: nat)
    requires k < |s.list|
    ensures Slots(CountDown(s, k).list) == Count(Slots(s.list), k)
  {
  }

  /** In every reachable state the sockets are as the loop needs them, unless zero is one of them. */
  lemma {:induction false} SocketsAreApart(s: State, max: nat)
    requires ResourcesOk(s, max) && 0 !in s.fds
    ensures Sockets(Slots(s.list))
  {
    var list := Slots(s.list);
    forall k, i | 0 <= k < |list| && 0 <= i < |list[k].socks| ensures list[k].socks[i] != 0 {
      assert list[k].socks[i] in SockSet(s.list[k]);
    }
    forall k, l, i, j | 0 <= k < l < |list| && 0 <= i < |list[k].socks| && 0 <= j < |list[l].socks|
      ensures list[k].socks[i] != list[l].socks[j]
    {
      assert list[k].socks[i] in SockSet(s.list[k]) && list[l].socks[j] in SockSet(s.list[l]);
    }
  }

  /** What arrives with a read, and where from. */
  datatype Arrived = Arrived(received: Received, sender: Option<(string, nat)>)


  /** Handle what arrived for query k; the run goes on. */
  method ReadOne(t: QueryTable, r: Relay, p: Node, ghost k: nat, a: Arrived, ghost es: seq<Event>) returns (ghost fs: seq<Event>)
    requires t.Valid() && k + 1 < |t.ring| && p == t.ring[k] && r.Valid() && AllKnown(t, r) && Staffed(r)
    requires PossibleRun(t.maxSockets, es) && Run(t.maxSockets, es) == t.Abs()
    modifies t, t.ring`q, t.ring`next, t.qids, t.qids.pool, r.nodes`inactive, r.nodes`sendTime
    ensures t.Valid() && k < |t.ring| <= |old(t.ring)| && p == t.ring[k] && r.Valid() && AllKnown(t, r)
    ensures es <= fs && PossibleRun(t.maxSockets, fs) && Run(t.maxSockets, fs) == t.Abs()
    ensures forall x :: 0 <= x < |t.ring| ==> t.ring[x] in old(t.ring)
    ensures Slots(t.Abs().list) == Count(Slots(old(t.Abs()).list), k)
  {
    ghost var before, ring := t.Abs(), t.ring;
    ghost var e := Arrival(ring[k + 1].q.id, Message(a.received));
    CountsAt(t, k, a.received);
    hide *;
    var sender, alive := UdpHandleReply(t, r, p, k, a.received, a.sender);
    OneMoreStep(t.maxSockets, es, e);
    fs := es + [e];
    OneLess(ring, t.ring, k);
  }

  lemma {:induction false} OneLess(before: seq<Node>, after: seq<Node>, k: nat)
    requires k + 1 < |before| && (after == before || after == before[..k + 1] + before[k + 2..])
    ensures k < |after| <= |before| && after[k] == before[k] && forall x :: 0 <= x < |after| ==> after[x] in before
  {
    forall x | 0 <= x < |after| ensures after[x] in before {
      assert after[x] == before[if x <= k || after == before then x else x + 1];
    }
  }

  lemma {:induction false} CountsAt(t: QueryTable, k: nat, received: Received)
    requires t.Valid() && k + 1 < |t.ring|
    ensures k < |t.Abs().list|
    ensures Slots(Step(t.Abs(), t.maxSockets, Arrival(t.ring[k + 1].q.id, Message(received))).list)
         == Count(Slots(t.Abs().list), k)
  {
    t.ListAt(k);
    hide ResourcesOk, Step, Slots, Count;
    ArrivalCounts(t.Abs(), t.maxSockets, k, Message(received));
  }

  /** The list and the sockets read so far. */
  ghost function Now(t: QueryTable, log: seq<int>): Round
    requires t.Valid()
    reads t, t.ring`q, t.ring`next, t.qids, t.qids.pool
  {
    Round(Slots(t.Abs().list), log)
  }

  lemma {:induction false} NowAt(t: QueryTable, log: seq<int>, k: nat)
    requires t.Valid()
    ensures |Now(t, log).list| == |t.ring| - 1
    ensures k + 1 < |t.ring| ==> var q := t.ring[k + 1].q; Now(t, log).list[k] == Slot(q.socks, q.awaited, q.isDummy)
  {
    if k + 1 < |t.ring| {
      t.ListAt(k);
    }
  }

  /** What the read of one turn makes of the list and the log. */
  function AfterRead(r: Round, k: nat, i: nat, ready: set<int>): Round {
    if k < |r.list| && SockAt(r.list[k], i) in ready then Round(Count(r.list, k), r.log + [SockAt(r.list[k], i)]) else r
  }

  /** The socket behind the cursor, zero at the list head. */
  method SocketOf(t: QueryTable, p: Node, ghost k: nat, i: nat, ghost log: seq<int>) returns (sock: int)
    requires t.Valid() && k < |t.ring| && p == t.ring[k]
    ensures sock == if k < |Now(t, log).list| then SockAt(Now(t, log).list[k], i) else 0
    ensures k < |Now(t, log).list| <==> k + 1 < |t.ring|
  {
    NowAt(t, log, k);
    t.LinkedAt(k);
    hide QueryTable.Valid, Now;
    sock := 0;
    if p.next != t.qlist {
      var n := t.NextNode(p, k);
      sock := if i < |n.q.socks| then n.q.socks[i] else 0;
    }
  }

  /** Read the i-th socket of the query behind the cursor if it is ready.  The list head's socket
      fields are zero, which is never ready. */
  method ReadIfReady(t: QueryTable, r: Relay, p: Node, ghost k: nat, i: nat, ready: set<int>, a: Arrived, log: seq<int>,
                     ghost es: seq<Event>)
    returns (more: seq<int>, ghost fs: seq<Event>)
    requires t.Valid() && k < |t.ring| && p == t.ring[k] && r.Valid() && AllKnown(t, r) && Staffed(r) && 0 !in ready
    requires PossibleRun(t.maxSockets, es) && Run(t.maxSockets, es) == t.Abs()
    modifies t, t.ring`q, t.ring`next, t.qids, t.qids.pool, r.nodes`inactive, r.nodes`sendTime
    ensures t.Valid() && k < |t.ring| <= |old(t.ring)| && p == t.ring[k] && r.Valid() && AllKnown(t, r)
    ensures es <= fs && PossibleRun(t.maxSockets, fs) && Run(t.maxSockets, fs) == t.Abs()
    ensures forall x :: 0 <= x < |t.ring| ==> t.ring[x] in old(t.ring)
    ensures Now(t, more) == AfterRead(old(Now(t, log)), k, i, ready)
  {
    hide QueryTable.Valid, QueryTable.Abs, Relay.Valid, AllKnown, Staffed, PossibleRun, Run, Slots, Count, SockAt;
    more, fs := log, es;
    var sock := SocketOf(t, p, k, i, log);
    if sock in ready {
      fs := ReadOne(t, r, p, k, a, es);
      more := log + [sock];
    }
  }

  /** One turn of the inner loop, with the cursor p before query k. */
  method Turn(t: QueryTable, r: Relay, p: Node, ghost k: nat, i: nat, ready: set<int>, a: Arrived, log: seq<int>,
              ghost es: seq<Event>)
    returns (more: seq<int>, dummy: bool, ghost fs: seq<Event>)
    requires t.Valid() && k < |t.ring| && p == t.ring[k] && r.Valid() && AllKnown(t, r) && Staffed(r) && 0 !in ready && i < 3
    requires PossibleRun(t.maxSockets, es) && Run(t.maxSockets, es) == t.Abs()
    modifies t, t.ring`q, t.ring`next, t.qids, t.qids.pool, r.nodes`inactive, r.nodes`sendTime
    ensures t.Valid() && k < |t.ring| <= |old(t.ring)| && p == t.ring[k] && r.Valid() && AllKnown(t, r)
    ensures es <= fs && PossibleRun(t.maxSockets, fs) && Run(t.maxSockets, fs) == t.Abs()
    ensures forall x :: 0 <= x < |t.ring| ==> t.ring[x] in old(t.ring)
    ensures Turns(old(Now(t, log)), k, i, ready) == if dummy then Now(t, more) else Turns(Now(t, more), k, i + 1, ready)
  {
    ghost var before := Now(t, log);
    TurnIs(before, k, i, ready);
    hide QueryTable.Valid, QueryTable.Abs, QueryTable.Linked, QidPool.Free, Relay.Valid, AllKnown, Staffed, PossibleRun, Run,
      Turns, Now, ResourcesOk, AfterRead;
    more, fs := ReadIfReady(t, r, p, k, i, ready, a, log, es);
    NowAt(t, more, k);
    t.LinkedAt(k);
    dummy := p.next != t.qlist && (p.next as Node).q.isDummy;
  }

  /** Turns, one turn at a time. */
  lemma {:induction false} TurnIs(r: Round, k: nat, i: nat, ready: set<int>)
    requires i < 3 && 0 !in ready
    ensures var t := AfterRead(r, k, i, ready);
      Turns(r, k, i, ready) == if k < |t.list| && t.list[k].isDummy then t else Turns(t, k, i + 1, ready)
  {
  }

  /** The inner loop. */
  method Visit(t: QueryTable, r: Relay, p: Node, ghost k: nat, ready: set<int>, arrivals: nat -> Arrived, log: seq<int>,
               ghost es: seq<Event>)
    returns (more: seq<int>, ghost fs: seq<Event>)
    requires t.Valid() && k < |t.ring| && p == t.ring[k] && r.Valid() && AllKnown(t, r) && Staffed(r) && 0 !in ready
    requires PossibleRun(t.maxSockets, es) && Run(t.maxSockets, es) == t.Abs()
    modifies t, t.ring`q, t.ring`next, t.qids, t.qids.pool, r.nodes`inactive, r.nodes`sendTime
    ensures t.Valid() && k < |t.ring| <= |old(t.ring)| && p == t.ring[k] && r.Valid() && AllKnown(t, r)
    ensures es <= fs && PossibleRun(t.maxSockets, fs) && Run(t.maxSockets, fs) == t.Abs()
    ensures forall x :: 0 <= x < |t.ring| ==> t.ring[x] in old(t.ring)
    ensures Now(t, more) == Turns(old(Now(t, log)), k, 0, ready)
  {
    hide QueryTable.Abs, QueryTable.Linked, QidPool.Free, Relay.Valid, AllKnown, Staffed, PossibleRun, Run, Turns, Now,
      ResourcesOk;
    more, fs := log, es;
    ghost var ring, start := t.ring, Now(t, log);
    var i: nat, dummy := 0, false;
    while i < 3 && !dummy
      modifies t, ring`q, ring`next, t.qids, t.qids.pool, r.nodes`inactive, r.nodes`sendTime
      invariant i <= 3 && t.Valid() && k < |t.ring| <= |ring| && p == t.ring[k] && r.Valid() && AllKnown(t, r)
      invariant es <= fs && PossibleRun(t.maxSockets, fs) && Run(t.maxSockets, fs) == t.Abs()
      invariant forall x :: 0 <= x < |t.ring| ==> t.ring[x] in ring
      invariant Turns(start, k, 0, ready) == if dummy then Now(t, more) else Turns(Now(t, more), k, i, ready)
      decreases 3 - i
    {
      more, dummy, fs := Turn(t, r, p, k, i, ready, arrivals(|more|), more, fs);
      i := i + 1;
    }
    if !dummy {
      NoTurns(Now(t, more), k, ready);
    }
  }


  /** The outer loop, one query at a time. */
  lemma {:induction false} VisitsIs(r: Round, k: nat, ready: set<int>)
    requires k < |r.list|
    ensures var t := Turns(r, k, 0, ready);
      Visits(r, k, ready) == if k >= |t.list| then Visits(t, 0, ready) else Visits(t, k + 1, ready)
  {
    hide Turns;
  }

  lemma {:induction false} VisitsEnd(r: Round, k: nat, ready: set<int>)
    requires k >= |r.list|
    ensures Visits(r, k, ready) == r
  {
  }

  lemma {:induction false} ReadsAre(t: QueryTable, ready: set<int>)
    requires t.Valid()
    ensures Visits(Now(t, []), 0, ready).log == Reads(Slots(t.Abs().list), ready)
  {
  }

  /** The whole loop: it ends, the run goes on, and the sockets are read as ReplyRound says. */
  method ReadReplies(t: QueryTable, r: Relay, ready: set<int>, arrivals: nat -> Arrived, ghost es: seq<Event>)
    returns (log: seq<int>, ghost fs: seq<Event>)
    requires t.Valid() && r.Valid() && AllKnown(t, r) && Staffed(r) && 0 !in ready
    requires PossibleRun(t.maxSockets, es) && Run(t.maxSockets, es) == t.Abs()
    modifies t, t.ring`q, t.ring`next, t.qids, t.qids.pool, r.nodes`inactive, r.nodes`sendTime
    ensures t.Valid() && r.Valid() && AllKnown(t, r)
    ensures es <= fs && PossibleRun(t.maxSockets, fs) && Run(t.maxSockets, fs) == t.Abs()
    ensures log == Reads(Slots(old(t.Abs()).list), ready)
  {
    ReadsAre(t, ready);
    t.LinkedAt(0);
    NowAt(t, [], 0);
    hide QueryTable.Abs, QueryTable.Linked, QidPool.Free, Relay.Valid, AllKnown, Staffed, PossibleRun, Run, Turns, Now,
      ResourcesOk, Visits, Slots, Reads;
    log, fs := [], es;
    ghost var ring, start, k: nat := t.ring, Now(t, []), 0;
    var p: Node := t.qlist;
    while p.next != t.qlist
      modifies t, ring`q, ring`next, t.qids, t.qids.pool, r.nodes`inactive, r.nodes`sendTime
      invariant t.Valid() && k < |t.ring| && p == t.ring[k] && r.Valid() && AllKnown(t, r)
      invariant es <= fs && PossibleRun(t.maxSockets, fs) && Run(t.maxSockets, fs) == t.Abs()
      invariant forall x :: 0 <= x < |t.ring| ==> t.ring[x] in ring
      invariant p.next == t.qlist <==> k + 1 == |t.ring|
      invariant Visits(start, 0, ready) == Visits(Now(t, log), k, ready)
      decreases |t.ring|, |t.ring| - k
    {
      p, k, log, fs := VisitNext(t, r, p, k, ready, arrivals, log, fs);
    }
    NowAt(t, log, k);
    VisitsEnd(Now(t, log), k, ready);
  }

  /** The inner loop and the step of the cursor. */
  method VisitNext(t: QueryTable, r: Relay, p: Node, ghost k: nat, ready: set<int>, arrivals: nat -> Arrived, log: seq<int>,
                   ghost es: seq<Event>)
    returns (next: Node, ghost j: nat, more: seq<int>, ghost fs: seq<Event>)
    requires t.Valid() && k + 1 < |t.ring| && p == t.ring[k] && r.Valid() && AllKnown(t, r) && Staffed(r) && 0 !in ready
    requires PossibleRun(t.maxSockets, es) && Run(t.maxSockets, es) == t.Abs()
    modifies t, t.ring`q, t.ring`next, t.qids, t.qids.pool, r.nodes`inactive, r.nodes`sendTime
    ensures t.Valid() && j < |t.ring| && next == t.ring[j] && r.Valid() && AllKnown(t, r)
    ensures |t.ring| < |old(t.ring)| || (|t.ring| == |old(t.ring)| && j == k + 1)
    ensures next.next == t.qlist <==> j + 1 == |t.ring|
    ensures es <= fs && PossibleRun(t.maxSockets, fs) && Run(t.maxSockets, fs) == t.Abs()
    ensures forall x :: 0 <= x < |t.ring| ==> t.ring[x] in old(t.ring)
    ensures Visits(old(Now(t, log)), k, ready) == Visits(Now(t, more), j, ready)
  {
    ghost var before := Now(t, log);
    NowAt(t, log, k);
    VisitsIs(before, k, ready);
    hide QueryTable.Valid, QueryTable.Abs, QueryTable.Linked, QidPool.Free, Relay.Valid, AllKnown, Staffed, PossibleRun, Run,
      Turns, Now, ResourcesOk, Visits;
    more, fs := Visit(t, r, p, k, ready, arrivals, log, es);
    NowAt(t, more, k);
    t.LinkedAt(k);
    next := p.next;
    j := if k + 1 == |t.ring| then 0 else k + 1;
    t.LinkedAt(j);
  }

  /** So every ready socket is read exactly once, whatever is ready, exactly if the queries are steady. */
  lemma {:induction false} ReadsOnceForAllIff(s: State, max: nat)
    requires ResourcesOk(s, max) && 0 !in s.fds
    ensures Steady(Slots(s.list)) <==> forall ready :: 0 !in ready ==> Once(Slots(s.list), ready)
  {
    hide ResourcesOk, Once, Steady;
    SocketsAreApart(s, max);
    OnceForAllIff(Slots(s.list));
  }

  /** Two queries with one ready socket each; the first awaits two answers, the second one: the first
      socket is read again after the second query is gone. */
  lemma {:induction false} ReadTwice(a: Slot, b: Slot)
    requires Sockets([a, b]) && !a.isDummy && !b.isDummy && a.awaited == 2 && b.awaited == 1
    requires |a.socks| == |b.socks| == 3
    ensures Reads([a, b], {a.socks[0], b.socks[0]}) == [a.socks[0], b.socks[0], a.socks[0]]
  {
    hide Turns;
    var ready := {a.socks[0], b.socks[0]};
    var r := Round([a, b], []);
    PairIsApart(a, b);
    FirstVisit(r, ready, a.socks[0]);
    var s := Less(r, 0, [a.socks[0]]);
    assert b.socks[0..1] == [b.socks[0]];
    VisitDeletes(s, 1, 0, ready);
    var t := Without(s, 1, [b.socks[0]]);
    VisitNothing(t, 1, 1, ready);
    assert t.list[0].socks[0..1] == [a.socks[0]];
    VisitDeletes(t, 0, 0, ready);
    var u := Without(t, 0, [a.socks[0]]);
    VisitNothing(u, 0, 1, ready);
    assert Visits(r, 0, ready) == Visits(s, 1, ready) == Visits(t, 0, ready) == Visits(u, 0, ready) == u;
  }

  lemma {:induction false} PairIsApart(a: Slot, b: Slot)
    requires Sockets([a, b]) && |a.socks| == |b.socks| == 3
    ensures 0 !in {a.socks[0], b.socks[0]}
    ensures forall i :: 1 <= i < 3 ==> a.socks[i] !in {a.socks[0], b.socks[0]} && b.socks[i] !in {a.socks[0], b.socks[0]}
  {
    var list := [a, b];
    assert list[0].socks[0] != 0 && list[1].socks[0] != 0;
    forall i | 1 <= i < 3 ensures a.socks[i] !in {a.socks[0], b.socks[0]} && b.socks[i] !in {a.socks[0], b.socks[0]} {
      assert list[0].socks[0] != list[0].socks[i] && list[1].socks[0] != list[1].socks[i];
      assert list[0].socks[i] != list[1].socks[0] && list[0].socks[0] != list[1].socks[i];
    }
  }

  /** If the first reply of such a query was a failure, nothing is left to receive the second time: the
      query is deleted, and its client is told nothing. */
  lemma {:induction false} FailureIsLost(s: State, max: nat, a: Query, b: Query, failure: seq<byte>, reply: seq<byte>)
    requires ResourcesOk(s, max) && s.list == [a, b] && !a.isDummy && !a.responded && a.awaited == 2 && b.awaited == 1
    requires Rcode(failure) != 0 && SentOf(s.sent, a.id) == []
    ensures var t := Step(Step(Step(s, max, GoodReply(a.id, failure)), max, GoodReply(b.id, reply)), max, BadReply(a.id));
      t.list == [] && SentOf(t.sent, a.id) == []
  {
    var one := Step(s, max, GoodReply(a.id, failure));
    assert s.list[0].id < s.list[1].id by {
      hide QidsOk, SocksOk;
    }
    FirstIsCounted(s, max, a, b, failure);
    SecondIsGone(one, max, one.list[0], b, reply);
  }

  lemma {:induction false} FirstIsCounted(s: State, max: nat, a: Query, b: Query, failure: seq<byte>)
    requires s.list == [a, b] && !a.isDummy && !a.responded && a.awaited == 2 && Rcode(failure) != 0
    ensures var t := Step(s, max, GoodReply(a.id, failure));
      && |t.list| == 2 && t.list[1] == b && t.list[0].id == a.id && t.list[0].awaited == 1 && t.sent == s.sent
  {
    hide WithId, Rcode;
    assert FindId(s.list, a.id) == 0;
  }

  lemma {:induction false} SecondIsGone(s: State, max: nat, a: Query, b: Query, reply: seq<byte>)
    requires s.list == [a, b] && a.id < b.id && a.awaited == b.awaited == 1 && SentOf(s.sent, a.id) == []
    ensures var t := Step(Step(s, max, GoodReply(b.id, reply)), max, BadReply(a.id));
      t.list == [] && SentOf(t.sent, a.id) == []
  {
    hide WithId, Rcode, SentOf;
    assert s.list[1..] == [b] && FindId([b], b.id) == 0;
    assert FindId(s.list, b.id) == 1;
    var t := Step(s, max, GoodReply(b.id, reply));
    assert t.list == [a] && FindId(t.list, a.id) == 0;
    if |t.sent| > |s.sent| {
      SentOfAppend(s.sent, t.sent[|s.sent|], a.id);
      assert t.sent == s.sent + [t.sent[|s.sent|]];
    }
  }
}
