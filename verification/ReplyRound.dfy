/** The loop of run() (relay.c lines 313-328) over the queries whose sockets are ready: which sockets
    are read, in which order.  A deleted query makes room for the next one under the same cursor, and
    deleting the last one sends the cursor back to the list head, with the same ready set. */
module ReplyRound {
  import opened Octets

  /** What the loop depends on of a query: its sockets and how many answers it awaits. */
  datatype Slot = Slot(socks: seq<int>, awaited: int, isDummy: bool)

  /** The i-th of the three socket fields; the unused ones are zero. */
  function SockAt(x: Slot, i: nat): int {
    if i < |x.socks| then x.socks[i] else 0
  }

  /** A reply or receive error: the last awaited one deletes the query. */
  function Count(list: seq<Slot>, k: nat): (r: seq<Slot>)
    requires k < |list|
    ensures |r| == if list[k].awaited == 1 then |list| - 1 else |list|
  {
    if list[k].awaited == 1 then list[..k] + list[k + 1..]
    else list[k := list[k].(awaited := list[k].awaited - 1)]
  }

  /** The list, and the sockets read so far. */
  datatype Round = Round(list: seq<Slot>, log: seq<int>)

  /** The three turns of the inner loop, from the i-th on, with the cursor before query k. */
  function Turns(r: Round, k: nat, i: nat, ready: set<int>): (t: Round)
    ensures |t.list| <= |r.list|
    decreases 3 - i
  {
    if i >= 3 then r
    else if k >= |r.list| then Turns(r, k, i + 1, ready)
    else
      var t := if SockAt(r.list[k], i) in ready then Round(Count(r.list, k), r.log + [SockAt(r.list[k], i)]) else r;
      if k < |t.list| && t.list[k].isDummy then t else Turns(t, k, i + 1, ready)
  }

  /** The outer loop from query k on. */
  function Visits(r: Round, k: nat, ready: set<int>): Round
    decreases |r.list|, |r.list| - k
  {
    if k >= |r.list| then r
    else
      var t := Turns(r, k, 0, ready);
      if k >= |t.list| then Visits(t, 0, ready) else Visits(t, k + 1, ready)
  }

  /** The sockets the loop reads. */
  function Reads(list: seq<Slot>, ready: set<int>): seq<int> {
    Visits(Round(list, []), 0, ready).log
  }

  // ---------------------------------------------------------------------------
  // What should happen.
  // ---------------------------------------------------------------------------

  /** Queries have three sockets, or one, all different; zero is none of them. */
  ghost predicate Sockets(list: seq<Slot>) {
    && (forall k :: 0 <= k < |list| ==> |list[k].socks| == if list[k].isDummy then 1 else 3)
    && (forall k, i :: 0 <= k < |list| && 0 <= i < |list[k].socks| ==> list[k].socks[i] != 0)
    && (forall k, i, j :: 0 <= k < |list| && 0 <= i < j < |list[k].socks| ==> list[k].socks[i] != list[k].socks[j])
    && (forall k, l, i, j :: 0 <= k < l < |list| && 0 <= i < |list[k].socks| && 0 <= j < |list[l].socks| ==>
         list[k].socks[i] != list[l].socks[j])
  }

  ghost predicate Open(list: seq<Slot>, f: int) {
    exists k :: 0 <= k < |list| && f in list[k].socks
  }

  function Times(log: seq<int>, f: int): nat {
    if log == [] then 0 else Times(log[..|log| - 1], f) + if log[|log| - 1] == f then 1 else 0
  }

  /** Every ready socket of a query is read once. */
  ghost predicate Once(list: seq<Slot>, ready: set<int>) {
    forall f :: f in ready && Open(list, f) ==> Times(Reads(list, ready), f) == 1
  }

  /** So many answers can arrive at one time that the query is deleted. */
  predicate Deletable(x: Slot) {
    1 <= x.awaited <= |x.socks|
  }

  /** No query can be deleted, or there is only one and it takes all its sockets. */
  ghost predicate Steady(list: seq<Slot>) {
    || (forall k :: 0 <= k < |list| ==> !Deletable(list[k]))
    || (|list| == 1 && list[0].awaited == |list[0].socks|)
  }

  lemma {:induction false} TimesSnoc(log: seq<int>, more: seq<int>, f: int)
    ensures Times(log + more, f) == Times(log, f) + Times(more, f)
  {
    if more == [] {
      assert log + more == log;
    } else {
      var front, last := more[..|more| - 1], more[|more| - 1];
      TimesSnoc(log, front, f);
      assert (log + more)[..|log + more| - 1] == log + front;
    }
  }

  // ---------------------------------------------------------------------------
  // One visit.
  // ---------------------------------------------------------------------------

  /** The ready ones among the sockets from the i-th on. */
  function ReadyFrom(x: Slot, i: nat, ready: set<int>): seq<int>
    decreases |x.socks| - i
  {
    if i >= |x.socks| then [] else (if x.socks[i] in ready then [x.socks[i]] else []) + ReadyFrom(x, i + 1, ready)
  }

  /** A query that awaits more answers than are ready, or none, is read completely and stays. */
  lemma {:induction false} VisitStays(r: Round, k: nat, i: nat, ready: set<int>)
    requires k < |r.list| && i <= 3 && 0 !in ready
    requires |r.list[k].socks| == if r.list[k].isDummy then 1 else 3
    requires r.list[k].isDummy ==> i == 0
    requires r.list[k].awaited <= 0 || r.list[k].awaited > |ReadyFrom(r.list[k], i, ready)|
    ensures Turns(r, k, i, ready) == Less(r, k, ReadyFrom(r.list[k], i, ready))
    decreases 3 - i
  {
    hide Turns, Less;
    var x := r.list[k];
    if i < |x.socks| {
      var t := if x.socks[i] in ready then Less(r, k, [x.socks[i]]) else r;
      TurnStays(r, k, i, ready);
      SameReady(x, t.list[k], i + 1, ready);
      if x.isDummy {
        assert ReadyFrom(x, i + 1, ready) == [];
        assert [x.socks[i]] + [] == [x.socks[i]] && [] + ReadyFrom(x, i + 1, ready) == [];
        NoneLess(t, k);
      } else {
        VisitStays(t, k, i + 1, ready);
        LessTwice(r, k, [x.socks[i]], ReadyFrom(x, i + 1, ready));
      }
    } else {
      NoneLess(r, k);
      NoTurns(r, k, ready);
    }
  }

  /** One turn that does not delete the query. */
  lemma {:induction false} TurnStays(r: Round, k: nat, i: nat, ready: set<int>)
    requires k < |r.list| && i < |r.list[k].socks| <= 3
    requires r.list[k].socks[i] in ready ==> r.list[k].awaited != 1
    ensures var x := r.list[k]; var t := if x.socks[i] in ready then Less(r, k, [x.socks[i]]) else r;
      && Turns(r, k, i, ready) == (if x.isDummy then t else Turns(t, k, i + 1, ready))
      && t.list[k] == (if x.socks[i] in ready then x.(awaited := x.awaited - 1) else x)
  {
  }

  lemma {:induction false} NoTurns(r: Round, k: nat, ready: set<int>)
    ensures Turns(r, k, 3, ready) == r
  {
  }

  /** Query k awaits fewer answers, for the sockets read. */
  function Less(r: Round, k: nat, more: seq<int>): (t: Round)
    requires k < |r.list|
    ensures |t.list| == |r.list|
  {
    Round(r.list[k := r.list[k].(awaited := r.list[k].awaited - |more|)], r.log + more)
  }

  lemma {:induction false} NoneLess(r: Round, k: nat)
    requires k < |r.list|
    ensures Less(r, k, []) == r
  {
  }

  lemma {:induction false} LessTwice(r: Round, k: nat, a: seq<int>, b: seq<int>)
    requires k < |r.list|
    ensures Less(Less(r, k, a), k, b) == Less(r, k, a + b) && [] + b == b
  {
    assert r.log + a + b == r.log + (a + b);
  }

  lemma {:induction false} SameReady(x: Slot, y: Slot, i: nat, ready: set<int>)
    requires x.socks == y.socks
    ensures ReadyFrom(x, i, ready) == ReadyFrom(y, i, ready)
    decreases |x.socks| - i
  {
    if i < |x.socks| {
      SameReady(x, y, i + 1, ready);
    }
  }

  lemma {:induction false} NoneReady(x: Slot, i: nat, ready: set<int>)
    requires forall j :: i <= j < |x.socks| ==> x.socks[j] !in ready
    ensures ReadyFrom(x, i, ready) == []
    decreases |x.socks| - i
  {
    if i < |x.socks| {
      NoneReady(x, i + 1, ready);
    }
  }

  lemma {:induction false} ReadyCount(x: Slot, i: nat, ready: set<int>)
    requires i <= |x.socks|
    ensures |ReadyFrom(x, i, ready)| <= |x.socks| - i
    decreases |x.socks| - i
  {
    if i < |x.socks| {
      ReadyCount(x, i + 1, ready);
    }
  }

  /** A query whose next sockets are ready, as many as it awaits, is deleted with the last of them. */
  lemma {:induction false} VisitDeletes(r: Round, k: nat, i: nat, ready: set<int>)
    requires k < |r.list| && 1 <= r.list[k].awaited && i + r.list[k].awaited <= |r.list[k].socks| <= 3
    requires r.list[k].isDummy ==> i == 0 && r.list[k].awaited == 1
    requires forall j :: i <= j < i + r.list[k].awaited ==> r.list[k].socks[j] in ready
    ensures var x := r.list[k]; var t := Without(r, k, x.socks[i..i + x.awaited]);
      Turns(r, k, i, ready) ==
        if k < |t.list| && t.list[k].isDummy then t else Turns(t, k, i + x.awaited, ready)
    decreases r.list[k].awaited
  {
    hide Turns;
    var x := r.list[k];
    assert x.socks[i..i + 1] == [x.socks[i]];
    if x.awaited == 1 {
      TurnDeletes(r, k, i, ready);
    } else {
      TurnStays(r, k, i, ready);
      VisitDeletes(Less(r, k, [x.socks[i]]), k, i + 1, ready);
      assert x.socks[i..i + x.awaited] == [x.socks[i]] + x.socks[i + 1..i + x.awaited];
      assert r.log + [x.socks[i]] + x.socks[i + 1..i + x.awaited] == r.log + x.socks[i..i + x.awaited];
    }
  }

  /** One turn that does. */
  lemma {:induction false} TurnDeletes(r: Round, k: nat, i: nat, ready: set<int>)
    requires k < |r.list| && i < |r.list[k].socks| <= 3 && r.list[k].socks[i] in ready && r.list[k].awaited == 1
    ensures var t := Without(r, k, [r.list[k].socks[i]]);
      Turns(r, k, i, ready) == if k < |t.list| && t.list[k].isDummy then t else Turns(t, k, i + 1, ready)
  {
  }

  function Without(r: Round, k: nat, more: seq<int>): (t: Round)
    requires k < |r.list|
    ensures |t.list| == |r.list| - 1
  {
    Round(r.list[..k] + r.list[k + 1..], r.log + more)
  }

  /** Nothing is ready at the cursor any more: the rest of the inner loop does nothing. */
  lemma {:induction false} VisitNothing(r: Round, k: nat, i: nat, ready: set<int>)
    requires 0 !in ready && i <= 3
    requires k < |r.list| ==> forall j :: i <= j < |r.list[k].socks| ==> r.list[k].socks[j] !in ready
    ensures Turns(r, k, i, ready) == r
    decreases 3 - i
  {
    if i < 3 {
      VisitNothing(r, k, i + 1, ready);
    }
  }

  /** Queries without ready sockets are passed over. */
  lemma {:induction false} SkipTo(r: Round, k: nat, n: nat, ready: set<int>)
    requires k <= n <= |r.list| && 0 !in ready
    requires forall l, j :: k <= l < n && 0 <= j < |r.list[l].socks| ==> r.list[l].socks[j] !in ready
    ensures Visits(r, k, ready) == Visits(r, n, ready)
    decreases n - k
  {
    if k < n {
      VisitNothing(r, k, 0, ready);
      SkipTo(r, k + 1, n, ready);
    }
  }

  lemma {:induction false} TurnsGrow(r: Round, k: nat, i: nat, ready: set<int>)
    ensures r.log <= Turns(r, k, i, ready).log
    decreases 3 - i
  {
    if i < 3 {
      if k >= |r.list| {
        TurnsGrow(r, k, i + 1, ready);
      } else {
        var t := if SockAt(r.list[k], i) in ready then Round(Count(r.list, k), r.log + [SockAt(r.list[k], i)]) else r;
        TurnsGrow(t, k, i + 1, ready);
      }
    }
  }

  lemma {:induction false} VisitsGrow(r: Round, k: nat, ready: set<int>)
    ensures r.log <= Visits(r, k, ready).log
    decreases |r.list|, |r.list| - k
  {
    if k < |r.list| {
      TurnsGrow(r, k, 0, ready);
      var t := Turns(r, k, 0, ready);
      if k >= |t.list| {
        VisitsGrow(t, 0, ready);
      } else {
        VisitsGrow(t, k + 1, ready);
      }
    }
  }

  lemma {:induction false} TimesOfPrefix(a: seq<int>, b: seq<int>, f: int)
    requires a <= b
    ensures Times(a, f) <= Times(b, f)
  {
    assert b == a + b[|a|..];
    TimesSnoc(a, b[|a|..], f);
  }

  lemma {:induction false} TimesIsZero(log: seq<int>, f: int)
    requires f !in log
    ensures Times(log, f) == 0
  {
    if log != [] {
      TimesIsZero(log[..|log| - 1], f);
    }
  }

  // ---------------------------------------------------------------------------
  // When no query can be deleted.
  // ---------------------------------------------------------------------------

  function AllReady(list: seq<Slot>, k: nat, ready: set<int>): seq<int>
    decreases |list| - k
  {
    if k >= |list| then [] else ReadyFrom(list[k], 0, ready) + AllReady(list, k + 1, ready)
  }

  /** From query k on the list is as it was; no query can be deleted. */
  ghost predicate Intact(now: seq<Slot>, list: seq<Slot>, k: nat) {
    && |now| == |list| && (forall l :: k <= l < |list| ==> now[l] == list[l] && !Deletable(list[l]))
    && (forall l :: k <= l < |list| ==> |list[l].socks| == if list[l].isDummy then 1 else 3)
  }

  lemma {:induction false} StaysIntact(r: Round, list: seq<Slot>, k: nat, ready: set<int>)
    requires Intact(r.list, list, k) && 0 !in ready
    ensures Visits(r, k, ready).log == r.log + AllReady(list, k, ready)
    decreases |list| - k
  {
    hide Turns, ReadyFrom;
    if k < |list| {
      var more := ReadyFrom(list[k], 0, ready);
      ReadyCount(list[k], 0, ready);
      VisitStays(r, k, 0, ready);
      StaysIntact(Less(r, k, more), list, k + 1, ready);
      assert r.log + more + AllReady(list, k + 1, ready) == r.log + (more + AllReady(list, k + 1, ready));
    } else {
      assert r.log + [] == r.log;
    }
  }

  lemma {:induction false} ReadyOnce(x: Slot, i: nat, ready: set<int>, f: int)
    requires forall a, b :: 0 <= a < b < |x.socks| ==> x.socks[a] != x.socks[b]
    ensures Times(ReadyFrom(x, i, ready), f) == if f in ready && exists j :: i <= j < |x.socks| && x.socks[j] == f then 1 else 0
    decreases |x.socks| - i
  {
    if i < |x.socks| {
      ReadyOnce(x, i + 1, ready, f);
      var first := if x.socks[i] in ready then [x.socks[i]] else [];
      TimesSnoc(first, ReadyFrom(x, i + 1, ready), f);
      TimesOne(x.socks[i], f);
    }
  }

  lemma {:induction false} TimesOne(g: int, f: int)
    ensures Times([g], f) == (if g == f then 1 else 0) && Times([], f) == 0
  {
    assert [g][..0] == [];
  }

  ghost predicate OpenFrom(list: seq<Slot>, k: nat, f: int) {
    exists l :: k <= l < |list| && f in list[l].socks
  }

  lemma {:induction false} AllReadyOnce(list: seq<Slot>, k: nat, ready: set<int>, f: int)
    requires Sockets(list) && k <= |list|
    ensures Times(AllReady(list, k, ready), f) == if f in ready && OpenFrom(list, k, f) then 1 else 0
    decreases |list| - k
  {
    if k < |list| {
      AllReadyOnce(list, k + 1, ready, f);
      ReadyOnce(list[k], 0, ready, f);
      TimesSnoc(ReadyFrom(list[k], 0, ready), AllReady(list, k + 1, ready), f);
      OpenStep(list, k, f);
    }
  }

  /** A socket belongs to one query. */
  lemma {:induction false} OpenStep(list: seq<Slot>, k: nat, f: int)
    requires Sockets(list) && k < |list|
    ensures OpenFrom(list, k, f) <==> f in list[k].socks || OpenFrom(list, k + 1, f)
    ensures !(f in list[k].socks && OpenFrom(list, k + 1, f))
    ensures f in list[k].socks <==> exists j :: 0 <= j < |list[k].socks| && list[k].socks[j] == f
  {
  }

  lemma {:induction false} NoDeletionIsOnce(list: seq<Slot>, ready: set<int>)
    requires Sockets(list) && 0 !in ready && forall k :: 0 <= k < |list| ==> !Deletable(list[k])
    ensures Once(list, ready)
  {
    hide Sockets, Visits, AllReady;
    SizesOf(list);
    StaysIntact(Round(list, []), list, 0, ready);
    assert [] + AllReady(list, 0, ready) == AllReady(list, 0, ready);
    forall f | f in ready && Open(list, f) ensures Times(Reads(list, ready), f) == 1 {
      AllReadyOnce(list, 0, ready, f);
      assert OpenFrom(list, 0, f);
    }
  }

  lemma {:induction false} SizesOf(list: seq<Slot>)
    requires Sockets(list)
    ensures forall k :: 0 <= k < |list| ==> |list[k].socks| == if list[k].isDummy then 1 else 3
  {
  }

  // ---------------------------------------------------------------------------
  // When there is one query.
  // ---------------------------------------------------------------------------

  lemma {:induction false} OneQueryAllReady(x: Slot, ready: set<int>)
    requires 0 !in ready && 1 <= x.awaited == |x.socks| <= 3 && (x.isDummy ==> |x.socks| == 1)
    requires forall j :: 0 <= j < |x.socks| ==> x.socks[j] in ready
    ensures Reads([x], ready) == ReadyFrom(x, 0, ready)
  {
    hide Turns;
    var r := Round([x], []);
    VisitDeletes(r, 0, 0, ready);
    var t := Without(r, 0, x.socks[0..|x.socks|]);
    assert t.list == [] && t.log == x.socks;
    VisitNothing(t, 0, x.awaited, ready);
    assert Turns(r, 0, 0, ready) == t;
    assert Visits(r, 0, ready) == Visits(t, 0, ready) == t;
    AllAreReady(x, 0, ready);
  }

  lemma {:induction false} OneQueryStays(x: Slot, ready: set<int>)
    requires 0 !in ready && x.awaited == |x.socks| == if x.isDummy then 1 else 3
    requires exists j :: 0 <= j < |x.socks| && x.socks[j] !in ready
    ensures Reads([x], ready) == ReadyFrom(x, 0, ready)
  {
    hide Turns;
    var r := Round([x], []);
    SomeNotReady(x, 0, ready);
    VisitStays(r, 0, 0, ready);
    var t := Less(r, 0, ReadyFrom(x, 0, ready));
    assert Visits(r, 0, ready) == Visits(t, 1, ready) == t;
    assert t.log == [] + ReadyFrom(x, 0, ready) == ReadyFrom(x, 0, ready);
  }

  /** It reads all its ready sockets. */
  lemma {:induction false} OneQuery(x: Slot, ready: set<int>)
    requires Sockets([x]) && 0 !in ready && x.awaited == |x.socks|
    ensures Once([x], ready)
  {
    hide Reads, ReadyFrom;
    SizesOf([x]);
    assert [x][0].socks == x.socks;
    if forall j :: 0 <= j < |x.socks| ==> x.socks[j] in ready {
      OneQueryAllReady(x, ready);
    } else {
      OneQueryStays(x, ready);
    }
    forall f | f in ready && Open([x], f) ensures Times(Reads([x], ready), f) == 1 {
      ReadyOnce(x, 0, ready, f);
    }
  }

  lemma {:induction false} AllAreReady(x: Slot, i: nat, ready: set<int>)
    requires i <= |x.socks| && forall j :: 0 <= j < |x.socks| ==> x.socks[j] in ready
    ensures ReadyFrom(x, i, ready) == x.socks[i..]
    decreases |x.socks| - i
  {
    if i < |x.socks| {
      AllAreReady(x, i + 1, ready);
    }
  }

  lemma {:induction false} SomeNotReady(x: Slot, i: nat, ready: set<int>)
    requires exists j :: i <= j < |x.socks| && x.socks[j] !in ready
    ensures |ReadyFrom(x, i, ready)| < |x.socks| - i
    decreases |x.socks| - i
  {
    if x.socks[i] in ready {
      SomeNotReady(x, i + 1, ready);
    } else {
      ReadyCount(x, i + 1, ready);
    }
  }

  // ---------------------------------------------------------------------------
  // Otherwise some ready set makes it fail.
  // ---------------------------------------------------------------------------

  function These(mine: seq<int>, other: int): set<int> {
    Elements(mine) + {other}
  }

  /** If the only ready sockets are those that delete query j, and perhaps the next one's first, only
      the former are read. */
  lemma {:induction false} DeletionIsRead(list: seq<Slot>, j: nat, ready: set<int>)
    requires j + 1 < |list| && 0 !in ready && 1 <= list[j].awaited <= |list[j].socks| <= 3
    requires list[j].isDummy ==> list[j].awaited == 1
    requires forall l, i :: 0 <= l < |list| && l != j && l != j + 1 && 0 <= i < |list[l].socks| ==> list[l].socks[i] !in ready
    requires var y := list[j + 1]; forall i :: 1 <= i < |y.socks| ==> y.socks[i] !in ready
    requires forall i :: 0 <= i < list[j].awaited ==> list[j].socks[i] in ready
    ensures Reads(list, ready) == list[j].socks[..list[j].awaited]
  {
    hide Turns;
    var x, r := list[j], Round(list, []);
    SkipTo(r, 0, j, ready);
    VisitDeletes(r, j, 0, ready);
    var t := Without(r, j, x.socks[0..x.awaited]);
    assert t.list[j] == list[j + 1];
    VisitNothing(t, j, x.awaited, ready);
    forall l, i | j + 1 <= l < |t.list| && 0 <= i < |t.list[l].socks| ensures t.list[l].socks[i] !in ready {
      assert t.list[l] == list[l + 1];
    }
    SkipTo(t, j + 1, |t.list|, ready);
  }

  /** The next query's first socket is passed over when a query in front of it is deleted. */
  lemma {:induction false} NextIsPassedOver(list: seq<Slot>, j: nat) returns (ready: set<int>)
    requires Sockets(list) && j + 1 < |list| && Deletable(list[j]) && (list[j].isDummy ==> list[j].awaited == 1)
    ensures 0 !in ready && !Once(list, ready)
  {
    SizesOf(list);
    hide Sockets, Reads;
    var mine, first := list[j].socks[..list[j].awaited], list[j + 1].socks[0];
    ready := These(mine, first);
    OnlyMine(list, j, first);
    DeletionIsRead(list, j, ready);
    TimesIsZero(mine, first);
    assert first in ready && Open(list, first) by {
      assert first in list[j + 1].socks;
    }
  }

  /** The sockets in such a ready set belong to these two queries only. */
  lemma {:induction false} OnlyMine(list: seq<Slot>, j: nat, first: int)
    requires Sockets(list) && j + 1 < |list| && 1 <= list[j].awaited <= |list[j].socks| && |list[j + 1].socks| > 0
    requires first == list[j + 1].socks[0]
    ensures var mine := list[j].socks[..list[j].awaited]; var ready := These(mine, first); var y := list[j + 1];
      && 0 !in ready && first !in mine
      && (forall l, i :: 0 <= l < |list| && l != j && l != j + 1 && 0 <= i < |list[l].socks| ==> list[l].socks[i] !in ready)
      && (forall i :: 1 <= i < |y.socks| ==> y.socks[i] !in ready)
      && (forall i :: 0 <= i < list[j].awaited ==> list[j].socks[i] in ready)
  {
    var mine := list[j].socks[..list[j].awaited];
    assert mine <= list[j].socks;
    forall i | 0 <= i < list[j].awaited ensures list[j].socks[i] in mine {
      assert mine[i] == list[j].socks[i];
    }
  }

  /** If the last query is deleted, the cursor starts again, and a socket that was read in front of it
      is read a second time. */
  lemma {:induction false} FirstIsReadAgain(list: seq<Slot>) returns (ready: set<int>)
    requires Sockets(list) && |list| > 1 && Deletable(list[|list| - 1]) && !Deletable(list[0])
    requires list[|list| - 1].isDummy ==> list[|list| - 1].awaited == 1
    ensures 0 !in ready && !Once(list, ready)
  {
    SizesOf(list);
    hide Sockets, Turns;
    var n := |list| - 1;
    var mine, first := list[n].socks[..list[n].awaited], list[0].socks[0];
    ready := These(mine, first);
    OnlyEnds(list, first);
    var t := StartsAgain(list, ready, first);
    SecondRead(t, ready, first);
    TimesSnoc([first], mine, first);
    TimesOne(first, first);
    assert first in ready && Open(list, first) by {
      assert first in list[0].socks;
    }
  }

  /** The first query's first socket and those of the last query are read, and the cursor is back at
      the first query. */
  lemma {:induction false} StartsAgain(list: seq<Slot>, ready: set<int>, first: int) returns (t: Round)
    requires |list| > 1 && 0 !in ready && !Deletable(list[0]) && Deletable(list[|list| - 1])
    requires |list[0].socks| == if list[0].isDummy then 1 else 3
    requires list[0].socks[0] == first && first in ready
    requires list[|list| - 1].isDummy ==> list[|list| - 1].awaited == 1
    requires |list[|list| - 1].socks| <= 3
    requires forall l, i :: 0 < l < |list| - 1 && 0 <= i < |list[l].socks| ==> list[l].socks[i] !in ready
    requires forall i :: 1 <= i < |list[0].socks| ==> list[0].socks[i] !in ready
    requires var x := list[|list| - 1]; forall i :: 0 <= i < x.awaited ==> x.socks[i] in ready
    ensures var x := list[|list| - 1]; t.log == [first] + x.socks[..x.awaited]
    ensures t.list != [] && t.list[0].socks == list[0].socks && Reads(list, ready) == Visits(t, 0, ready).log
  {
    hide Turns;
    var n, r := |list| - 1, Round(list, []);
    var x := list[n];
    FirstVisit(r, ready, first);
    var s := Less(r, 0, [first]);
    assert forall l :: 0 < l <= n ==> s.list[l] == list[l];
    SkipTo(s, 1, n, ready);
    VisitDeletes(s, n, 0, ready);
    t := Without(s, n, x.socks[0..x.awaited]);
    VisitNothing(t, n, x.awaited, ready);
    assert Visits(r, 0, ready) == Visits(s, 1, ready) == Visits(s, n, ready) == Visits(t, 0, ready);
  }

  /** The first socket of the first query is read, once more than before. */
  lemma {:induction false} SecondRead(t: Round, ready: set<int>, first: int)
    requires t.list != [] && |t.list[0].socks| > 0 && t.list[0].socks[0] == first && first in ready
    ensures Times(Visits(t, 0, ready).log, first) > Times(t.log, first)
  {
    var u := Turns(t, 0, 0, ready);
    TimesSnoc(t.log, [first], first);
    TimesOne(first, first);
    TurnsGrow(Round(Count(t.list, 0), t.log + [first]), 0, 1, ready);
    TimesOfPrefix(t.log + [first], u.log, first);
    VisitsGrow(u, 0, ready);
    VisitsGrow(u, 1, ready);
    TimesOfPrefix(u.log, Visits(t, 0, ready).log, first);
  }

  lemma {:induction false} FirstVisit(r: Round, ready: set<int>, first: int)
    requires r.list != [] && 0 !in ready && r.list[0].awaited != 1
    requires |r.list[0].socks| == if r.list[0].isDummy then 1 else 3
    requires r.list[0].socks[0] == first && first in ready
    requires forall i :: 1 <= i < |r.list[0].socks| ==> r.list[0].socks[i] !in ready
    ensures Turns(r, 0, 0, ready) == Less(r, 0, [first])
  {
    var x := r.list[0];
    NoneReady(x, 1, ready);
    assert ReadyFrom(x, 0, ready) == [first] + [];
    VisitStays(r, 0, 0, ready);
  }

  lemma {:induction false} OnlyEnds(list: seq<Slot>, first: int)
    requires Sockets(list) && |list| > 1 && |list[0].socks| > 0 && first == list[0].socks[0]
    requires var x := list[|list| - 1]; 1 <= x.awaited <= |x.socks|
    ensures var n := |list| - 1; var mine := list[n].socks[..list[n].awaited]; var ready := These(mine, first);
      && 0 !in ready && first in ready
      && (forall l, i :: 0 < l < n && 0 <= i < |list[l].socks| ==> list[l].socks[i] !in ready)
      && (forall i :: 1 <= i < |list[0].socks| ==> list[0].socks[i] !in ready)
      && (forall i :: 0 <= i < list[n].awaited ==> list[n].socks[i] in ready)
  {
    var n := |list| - 1;
    var mine := list[n].socks[..list[n].awaited];
    assert mine <= list[n].socks;
    forall i | 0 <= i < list[n].awaited ensures list[n].socks[i] in mine {
      assert mine[i] == list[n].socks[i];
    }
  }

  /** A single query that awaits fewer answers than it has sockets does not read them all. */
  lemma {:induction false} LastIsNotRead(x: Slot) returns (ready: set<int>)
    requires Sockets([x]) && 1 <= x.awaited < |x.socks|
    ensures 0 !in ready && !Once([x], ready)
  {
    SizesOf([x]);
    assert [x][0].socks == x.socks;
    ready := Elements(x.socks);
    var r := Round([x], []);
    VisitDeletes(r, 0, 0, ready);
    var t := Without(r, 0, x.socks[0..x.awaited]);
    assert t.list == [];
    VisitNothing(t, 0, x.awaited, ready);
    assert Visits(r, 0, ready) == Visits(t, 0, ready) == t;
    var last := x.socks[|x.socks| - 1];
    assert last !in x.socks[..x.awaited];
    TimesIsZero(x.socks[..x.awaited], last);
    assert t.log == x.socks[..x.awaited];
    assert last in ready && Open([x], last) by {
      assert last in [x][0].socks;
    }
  }

  /** Every ready socket is read exactly once, whatever is ready, if and only if no query can be
      deleted, or there is only one and it awaits as many answers as it has sockets. */
  lemma {:induction false} OnceForAllIff(list: seq<Slot>)
    requires Sockets(list)
    ensures Steady(list) <==> forall ready :: 0 !in ready ==> Once(list, ready)
  {
    hide Sockets, Once, Deletable;
    if forall k :: 0 <= k < |list| ==> !Deletable(list[k]) {
      forall ready | 0 !in ready ensures Once(list, ready) {
        NoDeletionIsOnce(list, ready);
      }
    } else {
      var k :| 0 <= k < |list| && Deletable(list[k]);
      Bounds(list, k);
      if k + 1 < |list| {
        var ready := NextIsPassedOver(list, k);
      } else if |list| > 1 {
        if Deletable(list[0]) {
          Bounds(list, 0);
          var ready := NextIsPassedOver(list, 0);
        } else {
          var ready := FirstIsReadAgain(list);
        }
      } else {
        assert list == [list[0]];
        if list[0].awaited == |list[0].socks| {
          forall ready | 0 !in ready ensures Once(list, ready) {
            OneQuery(list[0], ready);
          }
        } else {
          var ready := LastIsNotRead(list[0]);
        }
      }
    }
  }

  lemma {:induction false} Bounds(list: seq<Slot>, k: nat)
    requires Sockets(list) && k < |list| && Deletable(list[k])
    ensures 1 <= list[k].awaited <= |list[k].socks| && (list[k].isDummy ==> list[k].awaited == 1)
  {
  }
}
