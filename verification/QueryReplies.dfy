/** What clients see: over every run of the query multiplexer each query object causes at most one
    message, the first success wins, and a failure goes out only as the last awaited answer or at
    the end of the query's life. */
module QueryReplies {
  import opened Octets
  import opened QueryProtocol
  import opened QueryResources

  // ---------------------------------------------------------------------------
  // The history of one query.
  // ---------------------------------------------------------------------------

  /** The well-formed replies handled for a query, in order. */
  function HandledOf(h: seq<Handled>, id: nat): seq<seq<byte>> {
    if h == [] then []
    else HandledOf(h[..|h| - 1], id) + if h[|h| - 1].id == id then [h[|h| - 1].msg] else []
  }

  /** The messages sent to the client of a query, in order. */
  function SentOf(s: seq<Sent>, id: nat): seq<Sent> {
    if s == [] then []
    else SentOf(s[..|s| - 1], id) + if s[|s| - 1].id == id then [s[|s| - 1]] else []
  }

  lemma {:induction false} HandledOfAppend(h: seq<Handled>, x: Handled, id: nat)
    ensures HandledOf(h + [x], id) == HandledOf(h, id) + if x.id == id then [x.msg] else []
  {
    assert (h + [x])[..|h|] == h;
  }

  lemma {:induction false} SentOfAppend(s: seq<Sent>, x: Sent, id: nat)
    ensures SentOf(s + [x], id) == SentOf(s, id) + if x.id == id then [x] else []
  {
    assert (s + [x])[..|s|] == s;
  }

  predicate HasSuccess(h: seq<seq<byte>>) {
    exists i :: 0 <= i < |h| && Rcode(h[i]) == 0
  }

  /** The first reply with RCODE 0. */
  function FirstSuccess(h: seq<seq<byte>>): (msg: seq<byte>)
    requires HasSuccess(h)
  {
    if Rcode(h[0]) == 0 then h[0] else FirstSuccess(h[1..])
  }

  lemma {:induction false} FirstSuccessIsFirst(h: seq<seq<byte>>)
    requires HasSuccess(h)
    ensures exists i :: 0 <= i < |h| && FirstSuccess(h) == h[i] && Rcode(h[i]) == 0 && forall j :: 0 <= j < i ==> Rcode(h[j]) != 0
  {
    if Rcode(h[0]) != 0 {
      FirstSuccessIsFirst(h[1..]);
      var i :| 0 <= i < |h| - 1 && FirstSuccess(h[1..]) == h[1..][i] && Rcode(h[1..][i]) == 0
        && forall j :: 0 <= j < i ==> Rcode(h[1..][j]) != 0;
      assert h[i + 1] == h[1..][i];
      forall j | 0 <= j < i + 1 ensures Rcode(h[j]) != 0 {
        if j > 0 {
          assert Rcode(h[1..][j - 1]) != 0;
        }
      }
    }
  }

  lemma {:induction false} SuccessAppend(h: seq<seq<byte>>, msg: seq<byte>)
    ensures HasSuccess(h + [msg]) <==> HasSuccess(h) || Rcode(msg) == 0
    ensures HasSuccess(h) ==> FirstSuccess(h + [msg]) == FirstSuccess(h)
    ensures !HasSuccess(h) && Rcode(msg) == 0 ==> FirstSuccess(h + [msg]) == msg
  {
    assert (h + [msg])[|h|] == msg;
    assert forall i :: 0 <= i < |h| ==> (h + [msg])[i] == h[i];
    if h != [] && Rcode(h[0]) != 0 {
      assert (h + [msg])[1..] == h[1..] + [msg];
      SuccessAppend(h[1..], msg);
    }
  }

  // ---------------------------------------------------------------------------
  // The invariant.
  // ---------------------------------------------------------------------------

  /** While a query lives: before the response no success was handled and the first failure is
      kept; after it the first success, and nothing else, was sent. */
  ghost predicate LiveOk(q: Query, h: seq<seq<byte>>, s: seq<Sent>) {
    if q.isDummy then s == [] && !q.responded && q.failure == None
    else if !q.responded then
      s == [] && !HasSuccess(h) && q.failure == if h == [] then None else Some(h[0])
    else HasSuccess(h) && s == [Sent(q.id, WithId(FirstSuccess(h), q.clientQid), Success)]
  }

  /** What a client may have seen of a query at any time, alive or not. */
  ghost predicate FateOk(id: nat, b: Birth, h: seq<seq<byte>>, s: seq<Sent>) {
    if b.isDummy then s == []
    else if HasSuccess(h) then s == [Sent(id, WithId(FirstSuccess(h), b.clientQid), Success)]
    else
      || s == []
      || (h != [] && s == [Sent(id, WithId(h[|h| - 1], b.clientQid), LastAwaited)])
      || (h != [] && s == [Sent(id, WithId(h[0], b.clientQid), Expired)])
  }

  ghost predicate BirthOk(s: State, q: Query) {
    q.id < |s.born| && s.born[q.id] == Birth(q.clientQid, q.isDummy)
  }

  ghost predicate HistoryOk(s: State) {
    && (forall k :: 0 <= k < |s.list| ==>
         BirthOk(s, s.list[k]) && LiveOk(s.list[k], HandledOf(s.handled, s.list[k].id), SentOf(s.sent, s.list[k].id)))
    && (forall id: nat :: id < |s.born| ==>
         FateOk(id, s.born[id], HandledOf(s.handled, id), SentOf(s.sent, id)))
    && (forall id: nat :: |s.born| <= id ==> HandledOf(s.handled, id) == [] && SentOf(s.sent, id) == [])
  }

  // ---------------------------------------------------------------------------
  // Steps.
  // ---------------------------------------------------------------------------

  lemma {:induction false} UpdateKeepsHistory(s: State, k: nat, q: Query)
    requires HistoryOk(s) && k < |s.list|
    requires SameOwner(s.list[k], q) && q.responded == s.list[k].responded && q.failure == s.list[k].failure
    ensures HistoryOk(Update(s, k, q))
  {
    hide HandledOf, SentOf, FateOk;
  }

  lemma {:induction false} DeleteKeepsHistory(s: State, k: nat)
    requires HistoryOk(s) && k < |s.list|
    ensures HistoryOk(Delete(s, k))
  {
    hide HandledOf, SentOf, FateOk, LiveOk, HasSuccess;
    var t := Delete(s, k);
    assert forall i :: 0 <= i < |t.list| ==> t.list[i] == s.list[if i < k then i else i + 1];
  }

  lemma {:induction false} CreateKeepsHistory(s: State, clientQid: nat, isDummy: bool, socks: seq<int>, pick: nat, now: int, ttl: int)
    requires HistoryOk(s)
    ensures HistoryOk(Create(s, clientQid, isDummy, socks, pick, now, ttl))
  {
    hide HandledOf, SentOf;
    var t := Create(s, clientQid, isDummy, socks, pick, now, ttl);
    var id := |s.born|;
    assert t.list[|s.list|].id == id && HandledOf(t.handled, id) == [] && SentOf(t.sent, id) == [];
    assert forall i :: 0 <= i < |s.born| ==> t.born[i] == s.born[i];
  }

  /** What handling a reply adds to the history of its query. */
  function NewSent(q: Query, msg: seq<byte>): seq<Sent> {
    if q.isDummy || q.responded then []
    else if Rcode(msg) == 0 then [Sent(q.id, WithId(msg, q.clientQid), Success)]
    else if q.awaited == 1 then [Sent(q.id, WithId(msg, q.clientQid), LastAwaited)]
    else []
  }

  lemma {:induction false} ReplyHistory(s: State, k: nat, msg: seq<byte>, id: nat)
    requires k < |s.list|
    ensures var t := HandleReply(s, k, msg); var q := s.list[k];
      && t.born == s.born
      && HandledOf(t.handled, id) == HandledOf(s.handled, id) + (if q.id == id then [msg] else [])
      && SentOf(t.sent, id) == SentOf(s.sent, id) + (if q.id == id then NewSent(q, msg) else [])
  {
    hide HandledOf, SentOf, WithId;
    var q := s.list[k];
    HandledOfAppend(s.handled, Handled(q.id, msg), id);
    if NewSent(q, msg) != [] {
      SentOfAppend(s.sent, NewSent(q, msg)[0], id);
    }
  }

  /** The query after the reply, if it is not the last awaited one. */
  function AfterReply(q: Query, msg: seq<byte>): Query {
    var r :=
      if q.isDummy || q.responded then q
      else if Rcode(msg) == 0 then q.(responded := true)
      else if q.failure.None? then q.(failure := Some(msg))
      else q;
    r.(awaited := q.awaited - 1)
  }

  lemma {:induction false} ReplyList(s: State, k: nat, msg: seq<byte>)
    requires k < |s.list|
    ensures HandleReply(s, k, msg).list ==
      if s.list[k].awaited == 1 then s.list[..k] + s.list[k + 1..]
      else s.list[k := AfterReply(s.list[k], msg)]
  {
    hide WithId;
    var d := Digest(s, k, msg);
    assert d.list[..k] == s.list[..k] && d.list[k + 1..] == s.list[k + 1..];
  }

  lemma {:induction false} ReplyKeepsLive(q: Query, msg: seq<byte>, h: seq<seq<byte>>, s: seq<Sent>)
    requires LiveOk(q, h, s) && q.awaited != 1
    ensures LiveOk(AfterReply(q, msg), h + [msg], s + NewSent(q, msg))
  {
    hide WithId, HasSuccess, FirstSuccess;
    SuccessAppend(h, msg);
  }

  lemma {:induction false} ReplyGivesFate(q: Query, msg: seq<byte>, h: seq<seq<byte>>, s: seq<Sent>)
    requires LiveOk(q, h, s)
    ensures FateOk(q.id, Birth(q.clientQid, q.isDummy), h + [msg], s + NewSent(q, msg))
  {
    hide WithId, HasSuccess, FirstSuccess;
    SuccessAppend(h, msg);
  }

  lemma {:induction false} ReplyKeepsHistory(s: State, k: nat, msg: seq<byte>)
    requires HistoryOk(s) && ListOk(s) && k < |s.list|
    ensures HistoryOk(HandleReply(s, k, msg))
  {
    hide HandledOf, SentOf, FateOk, LiveOk, HasSuccess, NewSent, HandleReply, AfterReply;
    var t := HandleReply(s, k, msg);
    var q := s.list[k];
    var h, z := HandledOf(s.handled, q.id), SentOf(s.sent, q.id);
    ReplyHistory(s, k, msg, q.id);
    ReplyList(s, k, msg);
    ReplyGivesFate(q, msg, h, z);
    forall id: nat
      ensures id != q.id ==>
        HandledOf(t.handled, id) == HandledOf(s.handled, id) && SentOf(t.sent, id) == SentOf(s.sent, id)
      ensures t.born == s.born
    {
      ReplyHistory(s, k, msg, id);
    }
    forall i | 0 <= i < |t.list|
      ensures BirthOk(t, t.list[i]) && LiveOk(t.list[i], HandledOf(t.handled, t.list[i].id), SentOf(t.sent, t.list[i].id))
    {
      if q.awaited == 1 {
        assert t.list[i] == s.list[if i < k then i else i + 1];
      } else if i == k {
        ReplyKeepsLive(q, msg, h, z);
        assert t.list[i] == AfterReply(q, msg);
        SameAfterReply(q, msg);
      } else {
        assert t.list[i] == s.list[i];
      }
    }
  }

  lemma {:induction false} SameAfterReply(q: Query, msg: seq<byte>)
    ensures SameOwner(q, AfterReply(q, msg))
  {
  }

  lemma {:induction false} ExpireKeepsHistory(s: State, k: nat)
    requires HistoryOk(s) && ListOk(s) && k < |s.list|
    ensures HistoryOk(Expire(s, k))
  {
    hide HandledOf, SentOf, HasSuccess, WithId, FirstSuccess;
    var t := Expire(s, k);
    var q := s.list[k];
    if q.failure.Some? && !q.responded {
      forall id: nat
        ensures SentOf(t.sent, id) == SentOf(s.sent, id) + if q.id == id then [t.sent[|s.sent|]] else []
      {
        SentOfAppend(s.sent, t.sent[|s.sent|], id);
      }
      assert FateOk(q.id, s.born[q.id], HandledOf(t.handled, q.id), SentOf(t.sent, q.id));
      hide FateOk, LiveOk;
      assert forall i :: 0 <= i < |t.list| ==> t.list[i] == s.list[if i < k then i else i + 1];
    } else {
      DeleteKeepsHistory(s, k);
    }
  }

  lemma {:induction false} ExpireKeepsList(s: State, k: nat)
    requires ListOk(s) && k < |s.list|
    ensures ListOk(Expire(s, k))
  {
    hide WithId, ListOk;
    DeleteKeepsList(s, k);
    ListOkDepends(Delete(s, k), Expire(s, k));
  }

  lemma {:induction false} ListOkDepends(s: State, t: State)
    requires ListOk(s) && s.list == t.list && s.born == t.born
    ensures ListOk(t)
  {
  }

  lemma {:induction false} SweepKeepsHistory(s: State, k: nat, now: int)
    requires HistoryOk(s) && ListOk(s)
    ensures HistoryOk(Sweep(s, k, now))
    decreases |s.list|, |s.list| - k
  {
    hide HistoryOk, ListOk, Expire;
    if k < |s.list| {
      if !IsExpired(s.list[k], now) {
        SweepKeepsHistory(s, k + 1, now);
      } else {
        ExpireKeepsHistory(s, k);
        ExpireKeepsList(s, k);
        SweepKeepsHistory(Expire(s, k), if k == |s.list| - 1 then 0 else k + 1, now);
      }
    }
  }

  lemma {:induction false} AddKeepsHistory(s: State, max: nat, e: Event)
    requires e.Request? && HistoryOk(s)
    ensures HistoryOk(Step(s, max, e))
  {
    var k := FindClient(s.list, e.clientQid);
    if k < |s.list| {
      UpdateKeepsHistory(s, k, s.list[k].(clientTime := e.now));
    } else if s.sockets < max && |e.socks| >= SocketsWanted(e.isDummy) {
      CreateKeepsHistory(s, e.clientQid, e.isDummy, e.socks, e.pick, e.now, e.ttl);
    }
  }

  lemma {:induction false} StepKeepsHistory(s: State, max: nat, e: Event)
    requires HistoryOk(s) && ListOk(s)
    ensures HistoryOk(Step(s, max, e))
  {
    hide HistoryOk, ListOk, Add, Delete, HandleReply, Sweep;
    match e
    case Request(_, _, _, _, _, _) => AddKeepsHistory(s, max, e);
    case Forwarded(id, servers) =>
      var k := FindId(s.list, id);
      if k < |s.list| {
        UpdateKeepsHistory(s, k, s.list[k].(awaited := s.list[k].awaited + servers));
      }
    case Limited(id, ttl) =>
      var k := FindId(s.list, id);
      if k < |s.list| {
        UpdateKeepsHistory(s, k, s.list[k].(ttl := ttl));
      }
    case Dropped(id) =>
      var k := FindId(s.list, id);
      if k < |s.list| {
        DeleteKeepsHistory(s, k);
      }
    case BadReply(id) =>
      var k := FindId(s.list, id);
      if k < |s.list| {
        if s.list[k].awaited == 1 {
          DeleteKeepsHistory(s, k);
        } else {
          UpdateKeepsHistory(s, k, s.list[k].(awaited := s.list[k].awaited - 1));
        }
      }
    case GoodReply(id, msg) =>
      var k := FindId(s.list, id);
      if k < |s.list| {
        ReplyKeepsHistory(s, k, msg);
      }
    case Tick(now) => SweepKeepsHistory(s, 0, now);
  }

  lemma {:induction false} RunKeepsHistory(max: nat, es: seq<Event>)
    requires max <= QID_POOL_SIZE && PossibleRun(max, es)
    ensures HistoryOk(Run(max, es)) && ListOk(Run(max, es))
  {
    hide HistoryOk, ListOk, Step, Possible;
    RunKeepsResources(max, es);
    if es == [] {
      InitialHistory();
    } else {
      RunKeepsHistory(max, es[..|es| - 1]);
      StepKeepsHistory(Run(max, es[..|es| - 1]), max, es[|es| - 1]);
    }
  }

  lemma {:induction false} InitialHistory()
    ensures HistoryOk(INITIAL)
  {
    hide NumbersBelow;
  }

  // ---------------------------------------------------------------------------
  // Over whole runs.
  // ---------------------------------------------------------------------------

  /** Each query object causes at most one message to its client; a dummy query causes none. */
  lemma {:induction false} AtMostOneMessage(max: nat, es: seq<Event>, id: nat)
    requires max <= QID_POOL_SIZE && PossibleRun(max, es)
    ensures |SentOf(Run(max, es).sent, id)| <= 1
    ensures id < |Run(max, es).born| && Run(max, es).born[id].isDummy ==> SentOf(Run(max, es).sent, id) == []
  {
    RunKeepsHistory(max, es);
  }

  lemma {:induction false} SweepHandlesNothing(s: State, k: nat, now: int)
    ensures Sweep(s, k, now).handled == s.handled
    decreases |s.list|, |s.list| - k
  {
    hide WithId;
    if k < |s.list| {
      if !IsExpired(s.list[k], now) {
        SweepHandlesNothing(s, k + 1, now);
      } else {
        SweepHandlesNothing(Expire(s, k), if k == |s.list| - 1 then 0 else k + 1, now);
      }
    }
  }

  lemma {:induction false} StepHandles(s: State, max: nat, e: Event)
    ensures Step(s, max, e).handled == s.handled
      || (e.GoodReply? && Step(s, max, e).handled == s.handled + [Handled(e.id, e.msg)])
  {
    hide WithId, Sweep;
    if e.Tick? {
      SweepHandlesNothing(s, 0, e.now);
    }
  }

  /** Every reply handled in a run has a whole header. */
  lemma {:induction false} HandledIsWhole(max: nat, es: seq<Event>, id: nat)
    requires PossibleRun(max, es)
    ensures forall i :: 0 <= i < |HandledOf(Run(max, es).handled, id)| ==> 12 <= |HandledOf(Run(max, es).handled, id)[i]|
  {
    hide Step;
    if es != [] {
      var front, e := es[..|es| - 1], es[|es| - 1];
      HandledIsWhole(max, front, id);
      StepHandles(Run(max, front), max, e);
      if e.GoodReply? {
        HandledOfAppend(Run(max, front).handled, Handled(e.id, e.msg), id);
      }
    }
  }

  /** The first success wins.  Success is RCODE zero in the flags word (RFC 1035 section 4.1.1): as
      soon as one was handled for a client's query, the client has got exactly the first one, under its
      own ID.  Otherwise it has got nothing, or one failure: the last one handled, when no more answers
      were awaited, or the first one, when the query's time was up. */
  lemma {:induction false} FirstSuccessWins(max: nat, es: seq<Event>, id: nat)
    requires max <= QID_POOL_SIZE && PossibleRun(max, es)
    requires id < |Run(max, es).born| && !Run(max, es).born[id].isDummy
    ensures var t := Run(max, es);
      var h, sent, qid := HandledOf(t.handled, id), SentOf(t.sent, id), t.born[id].clientQid;
      && (forall i :: 0 <= i < |h| ==> 12 <= |h[i]|)
      && (forall i :: 0 <= i < |h| && ReadU16(h[i], 2) % 16 == 0 && (forall j :: 0 <= j < i ==> ReadU16(h[j], 2) % 16 != 0) ==>
           sent == [Sent(id, [qid % 256, qid / 256 % 256] + h[i][2..], Success)])
      && ((forall i :: 0 <= i < |h| ==> ReadU16(h[i], 2) % 16 != 0) ==>
           || sent == []
           || (h != [] && sent == [Sent(id, [qid % 256, qid / 256 % 256] + h[|h| - 1][2..], LastAwaited)])
           || (h != [] && sent == [Sent(id, [qid % 256, qid / 256 % 256] + h[0][2..], Expired)]))
  {
    hide Run, PossibleRun, HandledOf, SentOf;
    RunKeepsHistory(max, es);
    HandledIsWhole(max, es, id);
    var t := Run(max, es);
    FateInFlags(id, t.born[id], HandledOf(t.handled, id), SentOf(t.sent, id));
  }

  lemma {:induction false} FateInFlags(id: nat, b: Birth, h: seq<seq<byte>>, sent: seq<Sent>)
    requires FateOk(id, b, h, sent) && !b.isDummy && forall i :: 0 <= i < |h| ==> 12 <= |h[i]|
    ensures forall i :: 0 <= i < |h| && ReadU16(h[i], 2) % 16 == 0 && (forall j :: 0 <= j < i ==> ReadU16(h[j], 2) % 16 != 0) ==>
      sent == [Sent(id, [b.clientQid % 256, b.clientQid / 256 % 256] + h[i][2..], Success)]
    ensures (forall i :: 0 <= i < |h| ==> ReadU16(h[i], 2) % 16 != 0) ==>
      || sent == []
      || (h != [] && sent == [Sent(id, [b.clientQid % 256, b.clientQid / 256 % 256] + h[|h| - 1][2..], LastAwaited)])
      || (h != [] && sent == [Sent(id, [b.clientQid % 256, b.clientQid / 256 % 256] + h[0][2..], Expired)])
  {
    forall i | 0 <= i < |h| ensures Rcode(h[i]) == ReadU16(h[i], 2) % 16 {
      RcodeIsInFlags(h[i]);
    }
    hide Rcode, ReadU16;
    if HasSuccess(h) {
      FirstSuccessIsFirst(h);
    }
  }

  // ---------------------------------------------------------------------------
  // A query whose servers all answer.
  // ---------------------------------------------------------------------------

  /** The step neither ends the query by force nor changes how many answers it awaits, except by
      handling one of its replies; it may be refreshed. */
  predicate LeavesAlone(s: State, e: Event, id: nat) {
    match e
    case Forwarded(i, _) => i != id
    case Limited(i, _) => i != id
    case Dropped(i) => i != id
    case BadReply(i) => i != id
    case Tick(now) => var k := FindId(s.list, id); k < |s.list| ==> !IsExpired(s.list[k], now)
    case _ => true
  }

  predicate IsLive(s: State, id: nat) {
    FindId(s.list, id) < |s.list|
  }

  function LiveQuery(s: State, id: nat): (q: Query)
    requires IsLive(s, id)
    ensures q in s.list && q.id == id
  {
    s.list[FindId(s.list, id)]
  }

  lemma {:induction false} LiveAt(s: State, k: nat)
    requires ListOk(s) && k < |s.list|
    ensures IsLive(s, s.list[k].id) && LiveQuery(s, s.list[k].id) == s.list[k] && FindId(s.list, s.list[k].id) == k
  {
    var i := FindId(s.list, s.list[k].id);
    assert i <= k && s.list[i].id == s.list[k].id;
  }

  lemma {:induction false} UpdateLive(s: State, k: nat, q: Query, id: nat)
    requires ListOk(s) && k < |s.list| && q.id == s.list[k].id
    ensures ListOk(s) && IsLive(Update(s, k, q), id) == IsLive(s, id)
    ensures IsLive(s, id) ==> LiveQuery(Update(s, k, q), id) == if q.id == id then q else LiveQuery(s, id)
  {
    var t := Update(s, k, q);
    assert forall i :: 0 <= i < |s.list| ==> t.list[i].id == s.list[i].id;
    var i := FindId(s.list, id);
    var j := FindId(t.list, id);
    if i < |s.list| {
      assert t.list[i].id == id;
      assert !(i < j) && !(j < i);
    } else {
      assert j == |t.list|;
    }
    if id == q.id {
      LiveAt(s, k);
    }
  }

  /** The query at index i of a longer list, found again after a deletion. */
  lemma {:induction false} DeleteFinds(s: State, k: nat, j: nat)
    requires ListOk(s) && k < |s.list| && j < |s.list| - 1
    ensures var q := s.list[if j < k then j else j + 1];
      && IsLive(Delete(s, k), q.id) && LiveQuery(Delete(s, k), q.id) == q
      && IsLive(s, q.id) && LiveQuery(s, q.id) == q
      && q.id != s.list[k].id && Delete(s, k).list[j] == q
  {
    hide IsLive, LiveQuery;
    var i := if j < k then j else j + 1;
    assert Delete(s, k).list[j] == s.list[i];
    DeleteKeepsList(s, k);
    LiveAt(Delete(s, k), j);
    LiveAt(s, i);
  }

  lemma {:induction false} DeleteLive(s: State, k: nat, id: nat)
    requires ListOk(s) && k < |s.list|
    ensures IsLive(Delete(s, k), id) <==> IsLive(s, id) && id != s.list[k].id
    ensures IsLive(Delete(s, k), id) ==> LiveQuery(Delete(s, k), id) == LiveQuery(s, id)
  {
    var i, j := FindId(s.list, id), FindId(Delete(s, k).list, id);
    DeletedList(s, k);
    hide Delete, ListOk, LiveQuery;
    if j < |s.list| - 1 {
      DeleteFinds(s, k, j);
    } else if i < |s.list| && i != k {
      DeleteFinds(s, k, if i < k then i else i - 1);
    }
  }

  lemma {:induction false} DeletedList(s: State, k: nat)
    requires k < |s.list|
    ensures Delete(s, k).list == s.list[..k] + s.list[k + 1..]
  {
  }

  lemma {:induction false} SameListSameLive(s: State, t: State, id: nat)
    requires s.list == t.list
    ensures IsLive(s, id) == IsLive(t, id)
    ensures IsLive(s, id) ==> LiveQuery(s, id) == LiveQuery(t, id)
  {
  }

  /** A sweep neither removes nor changes a query that is not expired, brings none back, and
      sends nothing for a query that is gone. */
  lemma {:induction false} SweepLive(s: State, k: nat, now: int, id: nat)
    requires ListOk(s)
    ensures IsLive(s, id) && !IsExpired(LiveQuery(s, id), now) ==>
      IsLive(Sweep(s, k, now), id) && LiveQuery(Sweep(s, k, now), id) == LiveQuery(s, id)
    ensures !IsLive(s, id) ==> !IsLive(Sweep(s, k, now), id) && SentOf(Sweep(s, k, now).sent, id) == SentOf(s.sent, id)
    decreases |s.list|, |s.list| - k
  {
    hide ListOk, Expire, SentOf, IsLive, LiveQuery;
    if k < |s.list| {
      if !IsExpired(s.list[k], now) {
        SweepLive(s, k + 1, now, id);
      } else {
        ExpireKeepsList(s, k);
        ExpireLive(s, k, id);
        SweepLive(Expire(s, k), if k == |s.list| - 1 then 0 else k + 1, now, id);
      }
    }
  }

  lemma {:induction false} ExpireLive(s: State, k: nat, id: nat)
    requires ListOk(s) && k < |s.list|
    ensures IsLive(Expire(s, k), id) <==> IsLive(s, id) && LiveQuery(s, id) != s.list[k]
    ensures IsLive(Expire(s, k), id) ==> LiveQuery(Expire(s, k), id) == LiveQuery(s, id)
    ensures !IsLive(s, id) ==> SentOf(Expire(s, k).sent, id) == SentOf(s.sent, id)
  {
    hide ListOk, WithId, SentOf, IsLive, LiveQuery;
    DeleteLive(s, k, id);
    SameListSameLive(Delete(s, k), Expire(s, k), id);
    LiveAt(s, k);
    if Expire(s, k).sent != s.sent {
      SentOfAppend(s.sent, Expire(s, k).sent[|s.sent|], id);
    }
  }

  /** A query that is gone stays gone, and its client gets nothing more. */
  lemma {:induction false} GoneStaysGone(s: State, max: nat, e: Event, id: nat)
    requires ListOk(s) && !IsLive(s, id) && id < |s.born|
    ensures !IsLive(Step(s, max, e), id) && id < |Step(s, max, e).born|
    ensures SentOf(Step(s, max, e).sent, id) == SentOf(s.sent, id)
  {
    var t := Step(s, max, e);
    if e.Tick? {
      hide Sweep, ListOk, IsLive;
      SweepLive(s, 0, e.now, id);
      SweepBorn(s, 0, e.now);
    } else if e.GoodReply? {
      hide ListOk, WithId;
      var k := FindId(s.list, e.id);
      if k < |s.list| {
        ReplyHistory(s, k, e.msg, id);
        ReplyLive(s, k, e.msg, id);
      }
    } else if e.Request? {
      hide ListOk, SentOf;
      var k := FindClient(s.list, e.clientQid);
      if k < |s.list| {
        UpdateLive(s, k, s.list[k].(clientTime := e.now), id);
      }
    } else {
      hide SentOf, ListOk;
      var k := FindId(s.list, e.id);
      if k < |s.list| {
        OtherStepLive(s, max, e, k, id);
      }
    }
  }

  lemma {:induction false} SweepBorn(s: State, k: nat, now: int)
    ensures Sweep(s, k, now).born == s.born
    decreases |s.list|, |s.list| - k
  {
    if k < |s.list| {
      if !IsExpired(s.list[k], now) {
        SweepBorn(s, k + 1, now);
      } else {
        SweepBorn(Expire(s, k), if k == |s.list| - 1 then 0 else k + 1, now);
      }
    }
  }

  /** Handling a reply counts its query down, ends it at the last awaited answer, and leaves all
      other queries as they are. */
  lemma {:induction false} ReplyLive(s: State, k: nat, msg: seq<byte>, id: nat)
    requires ListOk(s) && k < |s.list|
    ensures var t := HandleReply(s, k, msg); var q := s.list[k];
      && (IsLive(t, id) <==> IsLive(s, id) && !(q.id == id && q.awaited == 1))
      && (IsLive(t, id) ==> LiveQuery(t, id) == if q.id == id then AfterReply(q, msg) else LiveQuery(s, id))
  {
    hide ListOk, WithId, HandleReply, IsLive, LiveQuery;
    var t := HandleReply(s, k, msg);
    var q := s.list[k];
    ReplyList(s, k, msg);
    LiveAt(s, k);
    if q.awaited == 1 {
      DeleteLive(s, k, id);
      SameListSameLive(t, Delete(s, k), id);
    } else {
      SameAfterReply(q, msg);
      UpdateLive(s, k, AfterReply(q, msg), id);
      SameListSameLive(t, Update(s, k, AfterReply(q, msg)), id);
    }
  }

  lemma {:induction false} OtherStepLive(s: State, max: nat, e: Event, k: nat, id: nat)
    requires ListOk(s) && (e.Forwarded? || e.Limited? || e.Dropped? || e.BadReply?)
    requires k == FindId(s.list, e.id) < |s.list|
    ensures var t := Step(s, max, e); t.sent == s.sent && t.born == s.born && (IsLive(t, id) ==> IsLive(s, id))
    ensures e.id != id && IsLive(s, id) ==> IsLive(Step(s, max, e), id) && LiveQuery(Step(s, max, e), id) == LiveQuery(s, id)
  {
    hide ListOk, IsLive, LiveQuery;
    var q := s.list[k];
    LiveAt(s, k);
    if e.Dropped? || (e.BadReply? && q.awaited == 1) {
      DeleteLive(s, k, id);
    } else {
      var r := if e.Forwarded? then q.(awaited := q.awaited + e.servers)
               else if e.Limited? then q.(ttl := e.ttl) else q.(awaited := q.awaited - 1);
      assert Step(s, max, e) == Update(s, k, r);
      UpdateLive(s, k, r, id);
    }
  }

  /** One undisturbed step: only a reply for the query counts it down. */
  lemma {:induction false} UndisturbedStep(s: State, max: nat, e: Event, id: nat)
    requires ListOk(s) && IsLive(s, id) && LeavesAlone(s, e, id)
    ensures var t := Step(s, max, e); var q := LiveQuery(s, id);
      if e.GoodReply? && e.id == id then
        if q.awaited == 1 then !IsLive(t, id) else IsLive(t, id) && LiveQuery(t, id).awaited == q.awaited - 1
      else IsLive(t, id) && LiveQuery(t, id).awaited == q.awaited
    ensures IsLive(Step(s, max, e), id) ==> LiveQuery(Step(s, max, e), id).isDummy == LiveQuery(s, id).isDummy
  {
    if e.Tick? {
      hide Sweep, ListOk;
      SweepLive(s, 0, e.now, id);
    } else if e.GoodReply? {
      hide ListOk, WithId, HandleReply;
      var k := FindId(s.list, e.id);
      if k < |s.list| {
        ReplyLive(s, k, e.msg, id);
      }
    } else if e.Request? {
      RequestLive(s, max, e, id);
    } else {
      hide ListOk;
      var k := FindId(s.list, e.id);
      if k < |s.list| {
        OtherStepLive(s, max, e, k, id);
      }
    }
  }

  lemma {:induction false} RequestLive(s: State, max: nat, e: Event, id: nat)
    requires ListOk(s) && IsLive(s, id) && e.Request?
    ensures var t := Step(s, max, e); IsLive(t, id) && LiveQuery(t, id).awaited == LiveQuery(s, id).awaited
    ensures LiveQuery(Step(s, max, e), id).isDummy == LiveQuery(s, id).isDummy
  {
    hide ListOk;
    var t := Step(s, max, e);
    var k := FindClient(s.list, e.clientQid);
    if k < |s.list| {
      UpdateLive(s, k, s.list[k].(clientTime := e.now), id);
    } else {
      var i := FindId(s.list, id);
      assert t.list[..|s.list|] == s.list;
      assert t.list[i] == s.list[i];
      assert forall j :: 0 <= j < i ==> t.list[j] == s.list[j];
      assert !(FindId(t.list, id) < i) && !(i < FindId(t.list, id));
    }
  }

  /** Replies for the query among the events from m to n. */
  function RepliesFor(es: seq<Event>, m: nat, n: nat, id: nat): nat
    requires m <= n <= |es|
  {
    if n == m then 0
    else RepliesFor(es, m, n - 1, id) + if es[n - 1].GoodReply? && es[n - 1].id == id then 1 else 0
  }

  ghost predicate Undisturbed(max: nat, es: seq<Event>, m: nat, n: nat, id: nat)
    requires m <= n <= |es|
  {
    forall i :: m <= i < n ==> LeavesAlone(Run(max, es[..i]), es[i], id)
  }

  lemma {:induction false} PrefixIsPossible(max: nat, es: seq<Event>, n: nat)
    requires PossibleRun(max, es) && n <= |es|
    ensures PossibleRun(max, es[..n])
    decreases |es|
  {
    if n < |es| {
      PrefixIsPossible(max, es[..|es| - 1], n);
      assert es[..|es| - 1][..n] == es[..n];
    } else {
      assert es[..n] == es;
    }
  }

  lemma {:induction false} RunNext(max: nat, es: seq<Event>, n: nat)
    requires n < |es|
    ensures Run(max, es[..n + 1]) == Step(Run(max, es[..n]), max, es[n])
  {
    assert es[..n + 1][..n] == es[..n];
  }

  /** If a client's query awaits k answers and is not disturbed, it lives until k well-formed
      replies have been handled, awaiting one less after each; from then on it is gone and its
      client has got exactly one message. */
  lemma {:induction false} KRepliesEndTheQuery(max: nat, es: seq<Event>, m: nat, n: nat, id: nat, k: nat)
    requires max <= QID_POOL_SIZE && PossibleRun(max, es) && m <= n <= |es| && 1 <= k
    requires IsLive(Run(max, es[..m]), id) && !LiveQuery(Run(max, es[..m]), id).isDummy
    requires LiveQuery(Run(max, es[..m]), id).awaited == k
    requires Undisturbed(max, es, m, n, id)
    ensures var t := Run(max, es[..n]); var replies := RepliesFor(es, m, n, id);
      if replies < k then IsLive(t, id) && LiveQuery(t, id).awaited == k - replies && !LiveQuery(t, id).isDummy
      else !IsLive(t, id) && id < |t.born| && |SentOf(t.sent, id)| == 1
  {
    hide Run, Step, IsLive, LiveQuery, LeavesAlone, SentOf, PossibleRun;
    if m < n {
      KRepliesEndTheQuery(max, es, m, n - 1, id, k);
      var s, e := Run(max, es[..n - 1]), es[n - 1];
      PrefixIsPossible(max, es, n - 1);
      RunKeepsHistory(max, es[..n - 1]);
      RunNext(max, es, n - 1);
      if RepliesFor(es, m, n - 1, id) < k {
        UndisturbedStep(s, max, e, id);
        if RepliesFor(es, m, n, id) == k {
          LastReplySends(s, max, e, id);
        }
      } else {
        GoneStaysGone(s, max, e, id);
      }
    }
  }

  /** With the last awaited reply the client has its message. */
  lemma {:induction false} LastReplySends(s: State, max: nat, e: Event, id: nat)
    requires HistoryOk(s) && ListOk(s) && IsLive(s, id) && e.GoodReply? && e.id == id
    requires LiveQuery(s, id).awaited == 1 && !LiveQuery(s, id).isDummy
    ensures |SentOf(Step(s, max, e).sent, id)| == 1 && id < |Step(s, max, e).born|
  {
    hide SentOf, HandledOf, WithId, FateOk, HandleReply, HasSuccess, FirstSuccess;
    var k := FindId(s.list, id);
    ReplyHistory(s, k, e.msg, id);
  }
}
