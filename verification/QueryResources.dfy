/** What every run of the query multiplexer keeps about its resources: query IDs are never lost
    nor shared, and the socket counter is the size of the descriptor set. */
module QueryResources {
  import opened Octets
  import opened QueryProtocol

  // ---------------------------------------------------------------------------
  // The invariants.
  // ---------------------------------------------------------------------------

  function LiveQids(list: seq<Query>): set<nat> {
    set k | 0 <= k < |list| :: list[k].myQid
  }

  function SockSet(q: Query): set<int> {
    Elements(q.socks)
  }

  /** Query objects are in order of creation, and no client ID is on the list twice. */
  ghost predicate ListOk(s: State) {
    && (forall i, j :: 0 <= i < j < |s.list| ==> s.list[i].id < s.list[j].id)
    && (forall i :: 0 <= i < |s.list| ==> s.list[i].id < |s.born|)
    && (forall i, j :: 0 <= i < j < |s.list| ==> s.list[i].clientQid != s.list[j].clientQid)
  }

  /** The pool and the IDs of the live queries are a permutation of all IDs. */
  ghost predicate QidsOk(s: State) {
    && s.free !! LiveQids(s.list)
    && (forall n: nat :: n < QID_POOL_SIZE <==> n in s.free || n in LiveQids(s.list))
    && (forall i, j :: 0 <= i < j < |s.list| ==> s.list[i].myQid != s.list[j].myQid)
  }

  /** The descriptor set is the disjoint union of the live queries' sockets and the leaked ones. */
  ghost predicate SocksOk(s: State) {
    && s.sockets == |s.fds|
    && s.leaked <= s.fds
    && (forall k :: 0 <= k < |s.list| ==>
         |s.list[k].socks| == SocketsWanted(s.list[k].isDummy) && NoRepeats(s.list[k].socks))
    && (forall k :: 0 <= k < |s.list| ==> SockSet(s.list[k]) <= s.fds && SockSet(s.list[k]) !! s.leaked)
    && (forall i, j :: 0 <= i < j < |s.list| ==> SockSet(s.list[i]) !! SockSet(s.list[j]))
    && (forall f :: f in s.fds ==> f in s.leaked || exists k :: 0 <= k < |s.list| && f in SockSet(s.list[k]))
  }

  ghost predicate ResourcesOk(s: State, max: nat) {
    ListOk(s) && QidsOk(s) && SocksOk(s) && s.sockets <= max + 2
  }

  // ---------------------------------------------------------------------------
  // Counting.
  // ---------------------------------------------------------------------------

  lemma {:induction false} SubsetSize<T>(a: set<T>, b: set<T>)
    requires a <= b
    ensures |a| <= |b|
  {
    assert b == a + (b - a);
  }

  /** Every live query owns at least one socket of its own. */
  lemma {:induction false} LiveQueriesAreBounded(s: State)
    requires SocksOk(s)
    ensures |s.list| <= s.sockets
  {
    var firsts := seq(|s.list|, k requires 0 <= k < |s.list| => s.list[k].socks[0]);
    forall i, j | 0 <= i < j < |firsts| ensures firsts[i] != firsts[j] {
      assert firsts[i] in SockSet(s.list[i]) && firsts[j] in SockSet(s.list[j]);
    }
    SetOfDistinct(firsts);
    assert forall f :: f in firsts ==> f in s.fds by {
      forall f | f in firsts ensures f in s.fds {
        var k :| 0 <= k < |firsts| && firsts[k] == f;
        assert f in SockSet(s.list[k]);
      }
    }
    SubsetSize(Elements(firsts), s.fds);
  }

  lemma {:induction false} LiveQidsSize(list: seq<Query>)
    ensures |LiveQids(list)| <= |list|
  {
    if list != [] {
      var front := list[..|list| - 1];
      LiveQidsSize(front);
      assert LiveQids(list) == LiveQids(front) + {list[|list| - 1].myQid};
    } else {
      assert LiveQids(list) == {};
    }
  }

  /** The pool is never empty when a query may be created. */
  lemma {:induction false} PoolNeverRunsEmpty(s: State, max: nat)
    requires ResourcesOk(s, max) && s.sockets < max <= QID_POOL_SIZE
    ensures s.free != {}
  {
    hide NumbersBelow;
    LiveQueriesAreBounded(s);
    LiveQidsSize(s.list);
    assert s.free + LiveQids(s.list) == NumbersBelow(QID_POOL_SIZE);
    assert |s.free + LiveQids(s.list)| == |s.free| + |LiveQids(s.list)|;
  }

  // ---------------------------------------------------------------------------
  // The ways a step changes the list.
  // ---------------------------------------------------------------------------

  predicate SameOwner(p: Query, q: Query) {
    p.id == q.id && p.myQid == q.myQid && p.clientQid == q.clientQid && p.isDummy == q.isDummy && p.socks == q.socks
  }

  lemma {:induction false} UpdateKeeps(s: State, max: nat, k: nat, q: Query)
    requires ResourcesOk(s, max) && k < |s.list| && SameOwner(s.list[k], q)
    ensures ResourcesOk(Update(s, k, q), max)
  {
    var t := Update(s, k, q);
    assert forall i :: 0 <= i < |s.list| ==> SameOwner(s.list[i], t.list[i]) && SockSet(s.list[i]) == SockSet(t.list[i]);
    assert LiveQids(t.list) == LiveQids(s.list);
    forall f | f in t.fds ensures f in t.leaked || exists i :: 0 <= i < |t.list| && f in SockSet(t.list[i]) {
      if f !in s.leaked {
        var i :| 0 <= i < |s.list| && f in SockSet(s.list[i]);
        assert f in SockSet(t.list[i]);
      }
    }
  }

  lemma {:induction false} DeleteKeepsList(s: State, k: nat)
    requires ListOk(s) && k < |s.list|
    ensures ListOk(Delete(s, k))
  {
    var t := Delete(s, k);
    assert forall i :: 0 <= i < |t.list| ==> t.list[i] == s.list[if i < k then i else i + 1];
  }

  lemma {:induction false} DeleteKeepsQids(s: State, k: nat)
    requires QidsOk(s) && k < |s.list|
    ensures QidsOk(Delete(s, k))
  {
    var t := Delete(s, k);
    var q := s.list[k].myQid;
    assert forall i :: 0 <= i < |t.list| ==> t.list[i] == s.list[if i < k then i else i + 1];
    assert LiveQids(t.list) == LiveQids(s.list) - {q} by {
      forall n | n in LiveQids(s.list) && n != q ensures n in LiveQids(t.list) {
        var i :| 0 <= i < |s.list| && s.list[i].myQid == n;
        assert t.list[if i < k then i else i - 1].myQid == n;
      }
    }
    assert q in LiveQids(s.list);
  }

  lemma {:induction false} DeleteShrinksSet(s: State, k: nat)
    requires SocksOk(s) && k < |s.list|
    ensures |s.fds - SockSet(s.list[k])| == s.sockets - |s.list[k].socks|
  {
    SetOfDistinct(s.list[k].socks);
    assert SockSet(s.list[k]) <= s.fds;
    assert s.fds == (s.fds - SockSet(s.list[k])) + SockSet(s.list[k]);
  }

  lemma {:induction false} DeleteKeepsCover(s: State, k: nat, f: int)
    requires SocksOk(s) && k < |s.list| && f in s.fds && f !in SockSet(s.list[k]) && f !in s.leaked
    ensures exists i :: 0 <= i < |Delete(s, k).list| && f in SockSet(Delete(s, k).list[i])
  {
    var i :| 0 <= i < |s.list| && f in SockSet(s.list[i]);
    var j := if i < k then i else i - 1;
    assert Delete(s, k).list[j] == s.list[i];
  }

  lemma {:induction false} DeleteKeepsSocks(s: State, k: nat)
    requires SocksOk(s) && k < |s.list|
    ensures SocksOk(Delete(s, k))
  {
    hide SockSet, NoRepeats, SocketsWanted;
    var t := Delete(s, k);
    assert t.fds == s.fds - SockSet(s.list[k]) by { FdsAfterDelete(s, k); }
    DeleteShrinksSet(s, k);
    assert forall i :: 0 <= i < |t.list| ==> t.list[i] == s.list[if i < k then i else i + 1];
    assert SockSet(s.list[k]) !! s.leaked;
    forall f | f in t.fds ensures f in t.leaked || exists i :: 0 <= i < |t.list| && f in SockSet(t.list[i]) {
      if f !in s.leaked {
        DeleteKeepsCover(s, k, f);
      }
    }
    forall i | 0 <= i < |t.list| ensures SockSet(t.list[i]) <= t.fds {
      assert SockSet(t.list[i]) !! SockSet(s.list[k]);
    }
  }

  lemma {:induction false} FdsAfterDelete(s: State, k: nat)
    requires k < |s.list|
    ensures Delete(s, k).fds == s.fds - SockSet(s.list[k])
  {
  }

  lemma {:induction false} DeleteKeeps(s: State, max: nat, k: nat)
    requires ResourcesOk(s, max) && k < |s.list|
    ensures ResourcesOk(Delete(s, k), max)
  {
    hide ListOk, QidsOk, SocksOk;
    DeleteKeepsList(s, k);
    DeleteKeepsQids(s, k);
    DeleteKeepsSocks(s, k);
  }

  lemma {:induction false} LeakKeeps(s: State, max: nat, socks: seq<int>)
    requires ResourcesOk(s, max) && NoRepeats(socks) && (forall i :: 0 <= i < |socks| ==> socks[i] !in s.fds)
    requires s.sockets + |socks| <= max + 2
    ensures ResourcesOk(Leak(s, socks), max)
  {
    var taken := Elements(socks);
    SetOfDistinct(socks);
    assert |s.fds + taken| == |s.fds| + |taken|;
  }

  lemma {:induction false} CreateKeepsQids(s: State, clientQid: nat, isDummy: bool, socks: seq<int>, pick: nat, now: int, ttl: int)
    requires QidsOk(s) && pick in s.free
    ensures QidsOk(Create(s, clientQid, isDummy, socks, pick, now, ttl))
  {
    var t := Create(s, clientQid, isDummy, socks, pick, now, ttl);
    assert LiveQids(t.list) == LiveQids(s.list) + {pick} by {
      assert t.list[|s.list|].myQid == pick;
      forall n | n in LiveQids(s.list) ensures n in LiveQids(t.list) {
        var i :| 0 <= i < |s.list| && s.list[i].myQid == n;
        assert t.list[i].myQid == n;
      }
    }
    assert forall i :: 0 <= i < |s.list| ==> s.list[i].myQid in LiveQids(s.list);
  }

  lemma {:induction false} OwnersAfterCreate(s: State, clientQid: nat, isDummy: bool, socks: seq<int>, pick: nat, now: int,
                                             ttl: int)
    requires SocksOk(s)
    ensures var t := Create(s, clientQid, isDummy, socks, pick, now, ttl);
      forall f :: f in t.fds ==> f in t.leaked || exists i :: 0 <= i < |t.list| && f in SockSet(t.list[i])
  {
    var t := Create(s, clientQid, isDummy, socks, pick, now, ttl);
    forall f | f in t.fds ensures f in t.leaked || exists i :: 0 <= i < |t.list| && f in SockSet(t.list[i]) {
      if f in s.fds && f !in s.leaked {
        var i :| 0 <= i < |s.list| && f in SockSet(s.list[i]);
        assert f in SockSet(t.list[i]);
      } else if f !in s.fds {
        assert f in SockSet(t.list[|s.list|]);
      }
    }
  }

  lemma {:induction false} CreateKeepsSocks(s: State, clientQid: nat, isDummy: bool, socks: seq<int>, pick: nat, now: int, ttl: int)
    requires SocksOk(s) && NoRepeats(socks) && (forall i :: 0 <= i < |socks| ==> socks[i] !in s.fds)
    requires |socks| == SocketsWanted(isDummy)
    ensures SocksOk(Create(s, clientQid, isDummy, socks, pick, now, ttl))
  {
    var t := Create(s, clientQid, isDummy, socks, pick, now, ttl);
    var q := t.list[|s.list|];
    SetOfDistinct(socks);
    assert SockSet(q) == Elements(socks) && SockSet(q) !! s.fds;
    assert |s.fds + SockSet(q)| == |s.fds| + |SockSet(q)|;
    hide SockSet, Elements;
    OwnersAfterCreate(s, clientQid, isDummy, socks, pick, now, ttl);
  }

  lemma {:induction false} CreateKeepsList(s: State, clientQid: nat, isDummy: bool, socks: seq<int>, pick: nat, now: int, ttl: int)
    requires ListOk(s) && forall i :: 0 <= i < |s.list| ==> s.list[i].clientQid != clientQid
    ensures ListOk(Create(s, clientQid, isDummy, socks, pick, now, ttl))
  {
  }

  lemma {:induction false} AddKeeps(s: State, max: nat, e: Event)
    requires e.Request? && max <= QID_POOL_SIZE && ResourcesOk(s, max) && Possible(s, max, e)
    ensures ResourcesOk(Step(s, max, e), max)
  {
    var k := FindClient(s.list, e.clientQid);
    if k < |s.list| {
      UpdateKeeps(s, max, k, s.list[k].(clientTime := e.now));
    } else if s.sockets < max {
      hide ListOk, QidsOk, SocksOk;
      if |e.socks| < SocketsWanted(e.isDummy) {
        LeakKeeps(s, max, e.socks);
      } else {
        PoolNeverRunsEmpty(s, max);
        CreateKeepsList(s, e.clientQid, e.isDummy, e.socks, e.pick, e.now, e.ttl);
        CreateKeepsQids(s, e.clientQid, e.isDummy, e.socks, e.pick, e.now, e.ttl);
        CreateKeepsSocks(s, e.clientQid, e.isDummy, e.socks, e.pick, e.now, e.ttl);
      }
    }
  }

  lemma {:induction false} CountDownKeeps(s: State, max: nat, k: nat)
    requires ResourcesOk(s, max) && k < |s.list|
    ensures ResourcesOk(CountDown(s, k), max)
  {
    hide ResourcesOk;
    if s.list[k].awaited == 1 {
      DeleteKeeps(s, max, k);
    } else {
      UpdateKeeps(s, max, k, s.list[k].(awaited := s.list[k].awaited - 1));
    }
  }

  /** The resources do not depend on the history. */
  lemma {:induction false} HistoryIsFree(s: State, t: State, max: nat)
    requires ResourcesOk(s, max) && t == s.(sent := t.sent, handled := t.handled)
    ensures ResourcesOk(t, max)
  {
  }

  lemma {:induction false} DigestKeeps(s: State, max: nat, k: nat, msg: seq<byte>)
    requires ResourcesOk(s, max) && k < |s.list|
    ensures ResourcesOk(Digest(s, k, msg), max)
  {
    hide ResourcesOk, WithId;
    var q := s.list[k];
    var r := Digest(s, k, msg);
    assert r.list == s.list[k := r.list[k]] && SameOwner(q, r.list[k]);
    UpdateKeeps(s, max, k, r.list[k]);
    HistoryIsFree(Update(s, k, r.list[k]), r, max);
  }

  lemma {:induction false} ExpireKeeps(s: State, max: nat, k: nat)
    requires ResourcesOk(s, max) && k < |s.list|
    ensures ResourcesOk(Expire(s, k), max)
  {
    hide ResourcesOk, WithId;
    DeleteKeeps(s, max, k);
    HistoryIsFree(Delete(s, k), Expire(s, k), max);
  }

  lemma {:induction false} SweepKeeps(s: State, max: nat, k: nat, now: int)
    requires ResourcesOk(s, max)
    ensures ResourcesOk(Sweep(s, k, now), max)
    decreases |s.list|, |s.list| - k
  {
    hide ResourcesOk, Expire;
    if k < |s.list| {
      if !IsExpired(s.list[k], now) {
        SweepKeeps(s, max, k + 1, now);
      } else {
        ExpireKeeps(s, max, k);
        SweepKeeps(Expire(s, k), max, if k == |s.list| - 1 then 0 else k + 1, now);
      }
    }
  }

  lemma {:induction false} StepKeeps(s: State, max: nat, e: Event)
    requires max <= QID_POOL_SIZE && ResourcesOk(s, max) && Possible(s, max, e)
    ensures ResourcesOk(Step(s, max, e), max)
  {
    hide ResourcesOk, Possible, Digest, CountDown, Delete, Sweep, Add;
    match e
    case Request(_, _, _, _, _, _) => AddKeeps(s, max, e);
    case Forwarded(id, servers) =>
      var k := FindId(s.list, id);
      if k < |s.list| {
        UpdateKeeps(s, max, k, s.list[k].(awaited := s.list[k].awaited + servers));
      }
    case Limited(id, ttl) =>
      var k := FindId(s.list, id);
      if k < |s.list| {
        UpdateKeeps(s, max, k, s.list[k].(ttl := ttl));
      }
    case Dropped(id) =>
      var k := FindId(s.list, id);
      if k < |s.list| {
        DeleteKeeps(s, max, k);
      }
    case BadReply(id) =>
      var k := FindId(s.list, id);
      if k < |s.list| {
        CountDownKeeps(s, max, k);
      }
    case GoodReply(id, msg) =>
      var k := FindId(s.list, id);
      if k < |s.list| {
        DigestKeeps(s, max, k, msg);
        CountDownKeeps(Digest(s, k, msg), max, k);
      }
    case Tick(now) => SweepKeeps(s, max, 0, now);
  }

  /** In every state of every run no query ID is lost or shared, the descriptor set is the
      disjoint union of the owned and the leaked sockets, the counter is its size and at most two
      above the limit, and client IDs are distinct. */
  lemma {:induction false} RunKeepsResources(max: nat, es: seq<Event>)
    requires max <= QID_POOL_SIZE && PossibleRun(max, es)
    ensures ResourcesOk(Run(max, es), max)
  {
    hide ResourcesOk, Step, Possible;
    if es == [] {
      InitialResources(max);
    } else {
      RunKeepsResources(max, es[..|es| - 1]);
      StepKeeps(Run(max, es[..|es| - 1]), max, es[|es| - 1]);
    }
  }

  /** In numbers: an ID below 65536 is free exactly if no live query has it, a dummy query holds one
      socket and any other three, and the counter is the number of open sockets. */
  lemma {:induction false} RunInNumbers(max: nat, es: seq<Event>)
    requires max <= QID_POOL_SIZE && PossibleRun(max, es)
    ensures var s := Run(max, es);
      && (forall n: nat :: n < 65536 ==> (n in s.free <==> forall k :: 0 <= k < |s.list| ==> s.list[k].myQid != n))
      && (forall n: nat :: n in s.free ==> n < 65536)
      && (forall k :: 0 <= k < |s.list| ==> |s.list[k].socks| == if s.list[k].isDummy then 1 else 3)
      && s.sockets == |s.fds| <= max + 2
  {
    hide Run, PossibleRun;
    RunKeepsResources(max, es);
    var s := Run(max, es);
    forall n: nat ensures n in LiveQids(s.list) <==> exists k :: 0 <= k < |s.list| && s.list[k].myQid == n {
    }
  }

  lemma {:induction false} InitialResources(max: nat)
    ensures ResourcesOk(INITIAL, max)
  {
    hide NumbersBelow;
    assert LiveQids([]) == {};
  }

  // ---------------------------------------------------------------------------
  // No leaks unless socket() fails.
  // ---------------------------------------------------------------------------

  /** socket() gives every query all the sockets it asks for. */
  ghost predicate SocketsNeverFail(es: seq<Event>) {
    forall i :: 0 <= i < |es| && es[i].Request? ==> |es[i].socks| >= SocketsWanted(es[i].isDummy)
  }

  lemma {:induction false} SweepLeaksNothing(s: State, k: nat, now: int)
    ensures Sweep(s, k, now).leaked == s.leaked
    decreases |s.list|, |s.list| - k
  {
    if k < |s.list| {
      if !IsExpired(s.list[k], now) {
        SweepLeaksNothing(s, k + 1, now);
      } else {
        SweepLeaksNothing(Expire(s, k), if k == |s.list| - 1 then 0 else k + 1, now);
      }
    }
  }

  lemma {:induction false} StepLeaksNothing(s: State, max: nat, e: Event)
    requires e.Request? ==> |e.socks| >= SocketsWanted(e.isDummy)
    ensures Step(s, max, e).leaked == s.leaked
  {
    hide Sweep;
    if e.Tick? {
      SweepLeaksNothing(s, 0, e.now);
    }
  }

  lemma {:induction false} NothingLeaksWithoutFailures(max: nat, es: seq<Event>)
    requires SocketsNeverFail(es)
    ensures Run(max, es).leaked == {}
  {
    hide Step;
    if es != [] {
      var front := es[..|es| - 1];
      assert forall i :: 0 <= i < |front| ==> front[i] == es[i];
      NothingLeaksWithoutFailures(max, front);
      StepLeaksNothing(Run(max, front), max, es[|es| - 1]);
    }
  }
}
