/** When a query was last asked for, over whole runs, and that a sweep keeps it for its ttl from then;
    and what the client of a swept query gets. */
module QueryTimes {
  import opened Octets
  import opened QueryProtocol
  import opened QueryResources
  import opened QueryReplies
  import opened QuerySweep

  /** The query is on the list under the client's ID. */
  ghost predicate ListedAs(list: seq<Query>, id: nat, clientQid: nat) {
    exists k :: 0 <= k < |list| && list[k].id == id && list[k].clientQid == clientQid
  }

  /** The time of the last request, the first or a repeated one, for the query. */
  ghost function LastAsked(max: nat, es: seq<Event>, id: nat): int {
    if es == [] then 0
    else
      var e := es[|es| - 1];
      if e.Request? && ListedAs(Run(max, es).list, id, e.clientQid) then e.now else LastAsked(max, es[..|es| - 1], id)
  }

  /** A query after a step: it was asked for in the step, or was there before with the same time. */
  ghost predicate TimeKept(s: State, e: Event, q: Query) {
    if e.Request? && q.clientQid == e.clientQid then q.clientTime == e.now
    else exists j :: 0 <= j < |s.list| && SameTime(s.list[j], q)
  }

  predicate SameTime(p: Query, q: Query) {
    p.id == q.id && p.clientQid == q.clientQid && p.clientTime == q.clientTime
  }

  lemma {:induction false} UpdateKeepsTime(s: State, e: Event, k: nat, r: Query)
    requires k < |s.list| && SameTime(s.list[k], r) && !e.Request?
    ensures forall q :: q in Update(s, k, r).list ==> TimeKept(s, e, q)
  {
    var t := Update(s, k, r);
    forall i | 0 <= i < |t.list| ensures TimeKept(s, e, t.list[i]) {
      assert SameTime(s.list[i], t.list[i]);
    }
  }

  lemma {:induction false} SubsetKeepsTime(s: State, e: Event, t: State)
    requires !e.Request? && forall q :: q in t.list ==> q in s.list
    ensures forall q :: q in t.list ==> TimeKept(s, e, q)
  {
    forall q | q in t.list ensures TimeKept(s, e, q) {
      var j :| 0 <= j < |s.list| && s.list[j] == q;
      assert SameTime(s.list[j], q);
    }
  }

  lemma {:induction false} RequestKeepsTime(s: State, max: nat, e: Event)
    requires ListOk(s) && e.Request?
    ensures forall q :: q in Step(s, max, e).list ==> TimeKept(s, e, q)
  {
    var t := Step(s, max, e);
    var k := FindClient(s.list, e.clientQid);
    forall i | 0 <= i < |t.list| ensures TimeKept(s, e, t.list[i]) {
      if i < |s.list| && i != k {
        assert s.list[i] == t.list[i] && s.list[i].clientQid != e.clientQid;
        assert SameTime(s.list[i], t.list[i]);
      }
    }
  }

  lemma {:induction false} ReplyKeepsTime(s: State, e: Event, k: nat, msg: seq<byte>)
    requires k < |s.list| && !e.Request?
    ensures forall q :: q in HandleReply(s, k, msg).list ==> TimeKept(s, e, q)
  {
    hide WithId, Rcode;
    var t := HandleReply(s, k, msg);
    forall i | 0 <= i < |t.list| ensures TimeKept(s, e, t.list[i]) {
      var j := if |t.list| < |s.list| && i >= k then i + 1 else i;
      assert SameTime(s.list[j], t.list[i]);
    }
  }

  lemma {:induction false} StepKeepsTime(s: State, max: nat, e: Event)
    requires ListOk(s)
    ensures forall q :: q in Step(s, max, e).list ==> TimeKept(s, e, q)
  {
    hide TimeKept, Sweep, HandleReply;
    if e.Request? {
      RequestKeepsTime(s, max, e);
    } else if e.Tick? {
      SweepLeavesSurvivors(s, 0, e.now);
      SweepRemovesOnlyExpired(s.list, 0, e.now);
      SubsetKeepsTime(s, e, Step(s, max, e));
    } else {
      var k := FindId(s.list, e.id);
      if k >= |s.list| {
        SubsetKeepsTime(s, e, s);
      } else if e.GoodReply? {
        ReplyKeepsTime(s, e, k, e.msg);
      } else if e.Dropped? || (e.BadReply? && s.list[k].awaited == 1) {
        SubsetKeepsTime(s, e, Delete(s, k));
      } else {
        var q := s.list[k];
        UpdateKeepsTime(s, e, k, if e.Forwarded? then q.(awaited := q.awaited + e.servers)
                                 else if e.Limited? then q.(ttl := e.ttl) else q.(awaited := q.awaited - 1));
      }
    }
  }

  /** In every run a live query carries the time of its last request. */
  lemma {:induction false} TimeIsLastAsked(max: nat, es: seq<Event>, q: Query)
    requires max <= QID_POOL_SIZE && PossibleRun(max, es) && q in Run(max, es).list
    ensures q.clientTime == LastAsked(max, es, q.id)
  {
    hide Step;
    var front, e := es[..|es| - 1], es[|es| - 1];
    var s, t := Run(max, front), Run(max, es);
    RunKeepsHistory(max, front);
    RunKeepsHistory(max, es);
    StepKeepsTime(s, max, e);
    assert TimeKept(s, e, q);
    var k :| 0 <= k < |t.list| && t.list[k] == q;
    if e.Request? && q.clientQid == e.clientQid {
      assert ListedAs(t.list, q.id, e.clientQid);
    } else {
      assert !(e.Request? && ListedAs(t.list, q.id, e.clientQid));
      var j :| 0 <= j < |s.list| && SameTime(s.list[j], q);
      TimeIsLastAsked(max, front, s.list[j]);
    }
  }

  /** A sweep removes a query only if its last request is longer ago than its ttl; and the first such
      query is removed. */
  lemma {:induction false} SweptAfterItsTime(max: nat, es: seq<Event>, now: int, q: Query)
    requires max <= QID_POOL_SIZE && PossibleRun(max, es) && q in Run(max, es).list
    ensures q !in Run(max, es + [Tick(now)]).list ==> now - LastAsked(max, es, q.id) > q.ttl
    ensures
      (now - LastAsked(max, es, q.id) > q.ttl
       && forall p :: p in Run(max, es).list && p.id < q.id ==> now - LastAsked(max, es, p.id) <= p.ttl) ==>
      q !in Run(max, es + [Tick(now)]).list
  {
    hide Survivors, Sweep, LastAsked;
    var s := Run(max, es);
    RunKeepsHistory(max, es);
    OneMoreStep(max, es, Tick(now));
    SweepLeavesSurvivors(s, 0, now);
    SweepInTimes(s.list, now);
    forall p | p in s.list ensures p.clientTime == LastAsked(max, es, p.id) {
      TimeIsLastAsked(max, es, p);
    }
    var k :| 0 <= k < |s.list| && s.list[k] == q;
    assert forall i :: 0 <= i < k ==> s.list[i] in s.list && s.list[i].id < q.id;
  }

  // ---------------------------------------------------------------------------
  // What a sweep sends.
  // ---------------------------------------------------------------------------

  /** The message for a query whose time is up: its first failure, if nothing was sent before. */
  function Farewell(q: Query): seq<Sent> {
    if q.failure.Some? && !q.responded then [Sent(q.id, WithId(q.failure.value, q.clientQid), Expired)] else []
  }

  lemma {:induction false} ExpireSends(s: State, k: nat, id: nat)
    requires ListOk(s) && k < |s.list|
    ensures ListOk(Expire(s, k)) && Expire(s, k).list == s.list[..k] + s.list[k + 1..]
    ensures SentOf(Expire(s, k).sent, id) == SentOf(s.sent, id) + if s.list[k].id == id then Farewell(s.list[k]) else []
  {
    ExpireKeepsList(s, k);
    hide WithId;
    var q := s.list[k];
    if q.failure.Some? && !q.responded {
      SentOfAppend(s.sent, Sent(q.id, WithId(q.failure.value, q.clientQid), Expired), id);
    }
  }

  lemma {:induction false} NothingForOthers(s: State, k: nat, now: int, id: nat)
    requires ListOk(s) && forall i :: 0 <= i < |s.list| ==> s.list[i].id != id
    ensures SentOf(Sweep(s, k, now).sent, id) == SentOf(s.sent, id)
    decreases |s.list|, |s.list| - k
  {
    hide SentOf, ListOk;
    if k < |s.list| {
      if !IsExpired(s.list[k], now) {
        NothingForOthers(s, k + 1, now, id);
      } else {
        ExpireSends(s, k, id);
        NothingForOthers(Expire(s, k), if k == |s.list| - 1 then 0 else k + 1, now, id);
      }
    }
  }

  /** Exactly the queries that are removed get their message, once. */
  lemma {:induction false} SweepSends(s: State, k: nat, now: int, q: Query)
    requires ListOk(s) && q in s.list
    ensures var t := Sweep(s, k, now);
      SentOf(t.sent, q.id) == SentOf(s.sent, q.id) + if q in t.list then [] else Farewell(q)
    decreases |s.list|, |s.list| - k
  {
    hide SentOf, Farewell;
    if k < |s.list| {
      if !IsExpired(s.list[k], now) {
        SweepSends(s, k + 1, now, q);
      } else {
        var t := Expire(s, k);
        var next := if k == |s.list| - 1 then 0 else k + 1;
        ExpireSends(s, k, q.id);
        OthersStay(s, k, q);
        if s.list[k] == q {
          NothingForOthers(t, next, now, q.id);
          SweepLeavesSurvivors(t, next, now);
          SweepRemovesOnlyExpired(t.list, next, now);
        } else {
          SweepSends(t, next, now, q);
        }
      }
    }
  }

  lemma {:induction false} OthersStay(s: State, k: nat, q: Query)
    requires ListOk(s) && k < |s.list| && q in s.list
    ensures s.list[k] == q <==> s.list[k].id == q.id
    ensures s.list[k] != q ==> q in s.list[..k] + s.list[k + 1..]
    ensures s.list[k] == q ==> forall p :: p in s.list[..k] + s.list[k + 1..] ==> p.id != q.id
  {
  }

  /** A client's query that a sweep removes leaves its client with exactly one message if any well-formed
      reply was handled for it, and with none otherwise. */
  lemma {:induction false} SweptClientIsTold(max: nat, es: seq<Event>, now: int, q: Query)
    requires max <= QID_POOL_SIZE && PossibleRun(max, es) && q in Run(max, es).list && !q.isDummy
    requires q !in Run(max, es + [Tick(now)]).list
    ensures var t := Run(max, es + [Tick(now)]);
      |SentOf(t.sent, q.id)| == if HandledOf(t.handled, q.id) == [] then 0 else 1
  {
    hide Run, PossibleRun, Sweep, SentOf, HandledOf;
    var s := Run(max, es);
    RunKeepsHistory(max, es);
    OneMoreStep(max, es, Tick(now));
    SweepHandlesNothing(s, 0, now);
    SweepSends(s, 0, now, q);
    var k :| 0 <= k < |s.list| && s.list[k] == q;
    assert LiveOk(q, HandledOf(s.handled, q.id), SentOf(s.sent, q.id));
  }
}
