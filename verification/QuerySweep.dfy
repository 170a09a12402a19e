/** query_timeout (query.c lines 290-321): what one sweep over the query list removes.  The cursor
    skips the query behind each removed one, so a sweep need not remove every expired query; this
    module proves exactly when it does. */
module QuerySweep {
  import opened QueryProtocol

  /** The list after a sweep from index k. */
  function Survivors(list: seq<Query>, k: nat, now: int): seq<Query>
    decreases |list|, |list| - k
  {
    if k >= |list| then list
    else if !IsExpired(list[k], now) then Survivors(list, k + 1, now)
    else
      var rest := list[..k] + list[k + 1..];
      Survivors(rest, if k == |rest| then 0 else k + 1, now)
  }

  lemma {:induction false} SweepLeavesSurvivors(s: State, k: nat, now: int)
    ensures Sweep(s, k, now).list == Survivors(s.list, k, now)
    decreases |s.list|, |s.list| - k
  {
    hide WithId;
    if k < |s.list| {
      if !IsExpired(s.list[k], now) {
        SweepLeavesSurvivors(s, k + 1, now);
      } else {
        SweepLeavesSurvivors(Expire(s, k), if k == |s.list| - 1 then 0 else k + 1, now);
      }
    }
  }

  /** The queries whose time is not up, in list order. */
  function Unexpired(list: seq<Query>, now: int): seq<Query> {
    if list == [] then []
    else (if IsExpired(list[0], now) then [] else [list[0]]) + Unexpired(list[1..], now)
  }

  lemma {:induction false} UnexpiredOfParts(a: seq<Query>, b: seq<Query>, now: int)
    ensures Unexpired(a + b, now) == Unexpired(a, now) + Unexpired(b, now)
  {
    if a == [] {
      assert a + b == b;
    } else {
      assert (a + b)[1..] == a[1..] + b;
      UnexpiredOfParts(a[1..], b, now);
    }
  }

  lemma {:induction false} RemovalKeepsUnexpired(list: seq<Query>, k: nat, now: int)
    requires k < |list| && IsExpired(list[k], now)
    ensures Unexpired(list[..k] + list[k + 1..], now) == Unexpired(list, now)
  {
    UnexpiredOfParts(list[..k], list[k + 1..], now);
    UnexpiredOfParts(list[..k], list[k..], now);
    assert list == list[..k] + list[k..] && list[k..][1..] == list[k + 1..];
  }

  /** A sweep removes only expired queries: all others stay, in order, and nothing is added. */
  lemma {:induction false} SweepRemovesOnlyExpired(list: seq<Query>, k: nat, now: int)
    ensures Unexpired(Survivors(list, k, now), now) == Unexpired(list, now)
    ensures forall q :: q in Survivors(list, k, now) ==> q in list
    decreases |list|, |list| - k
  {
    if k < |list| {
      if !IsExpired(list[k], now) {
        SweepRemovesOnlyExpired(list, k + 1, now);
      } else {
        var rest := list[..k] + list[k + 1..];
        RemovalKeepsUnexpired(list, k, now);
        SweepRemovesOnlyExpired(rest, if k == |rest| then 0 else k + 1, now);
      }
    }
  }

  /** The first expired query is always removed. */
  lemma {:induction false} SweepRemovesFirstExpired(list: seq<Query>, k: nat, j: nat, now: int)
    requires k <= j < |list| && IsExpired(list[j], now)
    requires forall i :: k <= i < j ==> !IsExpired(list[i], now)
    requires forall i :: 0 <= i < |list| && i != j ==> list[i] != list[j]
    ensures list[j] !in Survivors(list, k, now) && |Survivors(list, k, now)| < |list|
    decreases |list|, |list| - k
  {
    if k < j {
      SweepRemovesFirstExpired(list, k + 1, j, now);
    } else {
      var rest := list[..j] + list[j + 1..];
      SweepRemovesOnlyExpired(rest, if j == |rest| then 0 else j + 1, now);
      SweepShrinks(rest, if j == |rest| then 0 else j + 1, now);
    }
  }

  lemma {:induction false} SweepShrinks(list: seq<Query>, k: nat, now: int)
    ensures |Survivors(list, k, now)| <= |list|
    decreases |list|, |list| - k
  {
    if k < |list| {
      if !IsExpired(list[k], now) {
        SweepShrinks(list, k + 1, now);
      } else {
        var rest := list[..k] + list[k + 1..];
        SweepShrinks(rest, if k == |rest| then 0 else k + 1, now);
      }
    }
  }

  lemma {:induction false} UnexpiredHas(list: seq<Query>, now: int, q: Query)
    ensures q in Unexpired(list, now) <==> q in list && !IsExpired(q, now)
  {
    hide IsExpired;
    if list != [] {
      UnexpiredHas(list[1..], now, q);
    }
  }

  /** In times: a query stays if it was asked for no longer ago than its ttl, and the first one that was
      goes.  Queries are in the order of their numbers before and after. */
  lemma {:induction false} SweepInTimes(list: seq<Query>, now: int)
    requires forall i, j :: 0 <= i < j < |list| ==> list[i].id < list[j].id
    ensures forall q :: q in list && now - q.clientTime <= q.ttl ==> q in Survivors(list, 0, now)
    ensures forall q :: q in Survivors(list, 0, now) ==> q in list
    ensures forall k ::
      (0 <= k < |list| && now - list[k].clientTime > list[k].ttl
       && forall i :: 0 <= i < k ==> now - list[i].clientTime <= list[i].ttl) ==> list[k] !in Survivors(list, 0, now)
  {
    forall q ensures IsExpired(q, now) <==> now - q.clientTime > q.ttl {
    }
    hide IsExpired, Survivors, Unexpired;
    SweepRemovesOnlyExpired(list, 0, now);
    forall q | q in list && now - q.clientTime <= q.ttl ensures q in Survivors(list, 0, now) {
      UnexpiredHas(list, now, q);
      UnexpiredHas(Survivors(list, 0, now), now, q);
    }
    forall k | 0 <= k < |list| && now - list[k].clientTime > list[k].ttl
      && (forall i :: 0 <= i < k ==> now - list[i].clientTime <= list[i].ttl)
      ensures list[k] !in Survivors(list, 0, now)
    {
      SweepRemovesFirstExpired(list, 0, k, now);
    }
  }

  /** The same of the state. */
  lemma {:induction false} SweepIsInTime(s: State, now: int)
    requires forall i, j :: 0 <= i < j < |s.list| ==> s.list[i].id < s.list[j].id
    ensures var t := Sweep(s, 0, now);
      && (forall q :: q in s.list && now - q.clientTime <= q.ttl ==> q in t.list)
      && (forall q :: q in t.list ==> q in s.list)
      && (forall k ::
           (0 <= k < |s.list| && now - s.list[k].clientTime > s.list[k].ttl
            && forall i :: 0 <= i < k ==> now - s.list[i].clientTime <= s.list[i].ttl) ==> s.list[k] !in t.list)
  {
    hide Sweep, Survivors;
    SweepLeavesSurvivors(s, 0, now);
    SweepInTimes(s.list, now);
  }

  // ---------------------------------------------------------------------------
  // One pass over the list, without indices.
  // ---------------------------------------------------------------------------

  /** What a pass leaves: after a removal the next query is passed over. */
  function Pass(list: seq<Query>, now: int): seq<Query> {
    if list == [] then []
    else if !IsExpired(list[0], now) then [list[0]] + Pass(list[1..], now)
    else if |list| == 1 then []
    else [list[1]] + Pass(list[2..], now)
  }

  /** The pass removes the last query, so the sweep starts again at the head. */
  predicate StartsAgain(list: seq<Query>, now: int) {
    if list == [] then false
    else if !IsExpired(list[0], now) then StartsAgain(list[1..], now)
    else if |list| == 1 then true
    else StartsAgain(list[2..], now)
  }

  lemma {:induction false} Associate(a: seq<Query>, b: seq<Query>, c: seq<Query>)
    ensures a + b + c == a + (b + c)
  {
  }

  /** One step of the sweep at the head of rest. */
  lemma {:induction false} SweepStep(front: seq<Query>, rest: seq<Query>, now: int)
    requires rest != []
    ensures Survivors(front + rest, |front|, now) ==
      if !IsExpired(rest[0], now) then Survivors(front + [rest[0]] + rest[1..], |front| + 1, now)
      else if |rest| == 1 then Survivors(front, 0, now)
      else Survivors(front + [rest[1]] + rest[2..], |front| + 1, now)
  {
    var list := front + rest;
    assert rest == [rest[0]] + rest[1..];
    Associate(front, [rest[0]], rest[1..]);
    assert list[..|front|] + list[|front| + 1..] == front + rest[1..];
    if |rest| > 1 {
      assert rest[1..] == [rest[1]] + rest[2..];
      Associate(front, [rest[1]], rest[2..]);
    } else {
      assert front + rest[1..] == front;
    }
  }

  lemma {:induction false} SweepEnd(front: seq<Query>, now: int)
    ensures Survivors(front + [], |front|, now) == front
  {
    assert front + [] == front;
  }

  lemma {:induction false} SweepIsPass(front: seq<Query>, rest: seq<Query>, now: int)
    ensures Survivors(front + rest, |front|, now) ==
      if StartsAgain(rest, now) then Survivors(front + Pass(rest, now), 0, now) else front + Pass(rest, now)
    decreases |rest|
  {
    hide IsExpired, Survivors;
    if rest == [] {
      SweepEnd(front, now);
      assert rest == [] && front + [] == front;
    } else {
      SweepStep(front, rest, now);
      if !IsExpired(rest[0], now) {
        SweepIsPass(front + [rest[0]], rest[1..], now);
        Associate(front, [rest[0]], Pass(rest[1..], now));
      } else if |rest| == 1 {
        assert front + [] == front;
      } else {
        SweepIsPass(front + [rest[1]], rest[2..], now);
        Associate(front, [rest[1]], Pass(rest[2..], now));
      }
    }
  }

  // ---------------------------------------------------------------------------
  // Runs of expired queries.
  // ---------------------------------------------------------------------------

  function BumpFirst(r: seq<nat>): (b: seq<nat>)
    requires r != []
    ensures b != []
  {
    [r[0] + 1] + r[1..]
  }

  /** Lengths of the runs of expired queries before, between and behind the unexpired ones. */
  function Runs(list: seq<Query>, now: int): (r: seq<nat>)
    ensures r != []
  {
    if list == [] then [0]
    else if IsExpired(list[0], now) then BumpFirst(Runs(list[1..], now))
    else [0] + Runs(list[1..], now)
  }

  function Halved(r: seq<nat>): (h: seq<nat>)
    ensures |h| == |r|
  {
    if r == [] then [] else [r[0] / 2] + Halved(r[1..])
  }

  lemma {:induction false} HalvedAt(r: seq<nat>, k: nat)
    requires k < |r|
    ensures Halved(r)[k] == r[k] / 2
  {
    if k > 0 {
      HalvedAt(r[1..], k - 1);
    }
  }

  function Last(r: seq<nat>): nat
    requires r != []
  {
    r[|r| - 1]
  }

  lemma {:induction false} BumpTwice(r: seq<nat>)
    requires r != []
    ensures Halved(BumpFirst(BumpFirst(r))) == BumpFirst(Halved(r))
    ensures Last(BumpFirst(BumpFirst(r))) % 2 == Last(r) % 2
  {
    assert (r[0] + 2) / 2 == r[0] / 2 + 1;
    assert BumpFirst(BumpFirst(r)) == [r[0] + 2] + r[1..];
  }

  lemma {:induction false} BumpOnce(r: seq<nat>)
    requires r != []
    ensures Halved(BumpFirst([0] + r)) == [0] + Halved(r) && Last(BumpFirst([0] + r)) == Last(r)
    ensures Halved([0] + r) == [0] + Halved(r) && Last([0] + r) == Last(r)
  {
    assert BumpFirst([0] + r) == [1] + r;
  }

  /** A pass halves every run, and starts again exactly when the last run is odd. */
  lemma {:induction false} PassHalvesRuns(list: seq<Query>, now: int)
    ensures Runs(Pass(list, now), now) == Halved(Runs(list, now))
    ensures StartsAgain(list, now) <==> Last(Runs(list, now)) % 2 == 1
    decreases |list|
  {
    hide IsExpired, Halved, Last, BumpFirst;
    if list == [] {
      SmallRuns();
    } else if !IsExpired(list[0], now) {
      PassHalvesRuns(list[1..], now);
      assert Pass(list, now)[1..] == Pass(list[1..], now);
      BumpOnce(Runs(list[1..], now));
    } else if |list| == 1 {
      assert list[1..] == [];
      SmallRuns();
    } else {
      PassHalvesRuns(list[2..], now);
      assert Pass(list, now)[1..] == Pass(list[2..], now);
      assert list[1..][1..] == list[2..] && list[1..][0] == list[1];
      BumpOnce(Runs(list[2..], now));
      BumpTwice(Runs(list[2..], now));
    }
  }

  lemma {:induction false} SmallRuns()
    ensures Halved([0]) == [0] && Last([0]) == 0
    ensures Halved(BumpFirst([0])) == [0] && Last(BumpFirst([0])) == 1
  {
    assert Halved([0][1..]) == [] && Halved([1][1..]) == [];
  }

  predicate NoneExpired(list: seq<Query>, now: int) {
    forall k :: 0 <= k < |list| ==> !IsExpired(list[k], now)
  }

  predicate AllBelow(r: seq<nat>, bound: nat) {
    forall k :: 0 <= k < |r| ==> r[k] < bound
  }

  lemma {:induction false} CleanMeansNoRuns(list: seq<Query>, now: int)
    ensures NoneExpired(list, now) <==> AllBelow(Runs(list, now), 1)
  {
    hide IsExpired;
    if list != [] {
      CleanMeansNoRuns(list[1..], now);
      var r := Runs(list[1..], now);
      if IsExpired(list[0], now) {
        assert BumpFirst(r)[0] == r[0] + 1;
      } else {
        assert forall k :: 0 <= k < |r| ==> ([0] + r)[k + 1] == r[k];
        assert forall k :: 0 < k < |list| ==> list[1..][k - 1] == list[k];
        AllBelowZero(r);
        NoneExpiredTail(list, now);
      }
    }
  }

  lemma {:induction false} AllBelowZero(r: seq<nat>)
    ensures AllBelow([0] + r, 1) <==> AllBelow(r, 1)
  {
    if AllBelow([0] + r, 1) {
      forall k | 0 <= k < |r| ensures r[k] < 1 {
        assert ([0] + r)[k + 1] < 1;
      }
    }
  }

  lemma {:induction false} NoneExpiredTail(list: seq<Query>, now: int)
    requires list != [] && !IsExpired(list[0], now)
    ensures NoneExpired(list, now) <==> NoneExpired(list[1..], now)
  {
    if NoneExpired(list[1..], now) {
      forall k | 0 <= k < |list| ensures !IsExpired(list[k], now) {
        if k > 0 {
          assert !IsExpired(list[1..][k - 1], now);
        }
      }
    }
  }

  function Pow2(m: nat): (p: nat)
    ensures p >= 1
  {
    if m == 0 then 1 else 2 * Pow2(m - 1)
  }

  /** The closed form: for some m the last run has 2^m - 1 queries, and every run fewer than
      2^(m+1). */
  predicate FitsPasses(r: seq<nat>, m: nat)
    requires r != []
  {
    Last(r) == Pow2(m) - 1 && AllBelow(r, 2 * Pow2(m))
  }

  lemma {:induction false} FitsHalved(r: seq<nat>, m: nat)
    requires r != [] && Last(r) % 2 == 1
    ensures FitsPasses(r, m + 1) <==> FitsPasses(Halved(r), m)
    ensures !FitsPasses(r, 0)
  {
    forall k | 0 <= k < |r| ensures Halved(r)[k] == r[k] / 2 {
      HalvedAt(r, k);
    }
    assert forall k :: 0 <= k < |r| ==> (r[k] < 2 * Pow2(m + 1) <==> r[k] / 2 < 2 * Pow2(m));
  }

  /** A sweep removes every expired query if and only if the runs of expired queries fit. */
  lemma {:induction false} SweepRemovesAllIff(list: seq<Query>, now: int)
    ensures NoneExpired(Survivors(list, 0, now), now) <==> exists m: nat :: FitsPasses(Runs(list, now), m)
    decreases |list|
  {
    hide FitsPasses, Survivors, Runs, Pass, NoneExpired, StartsAgain, AllBelow;
    var r := Runs(list, now);
    SweepIsPass([], list, now);
    assert [] + list == list && [] + Pass(list, now) == Pass(list, now);
    PassHalvesRuns(list, now);
    if StartsAgain(list, now) {
      PassShrinks(list, now);
      SweepRemovesAllIff(Pass(list, now), now);
      if m: nat :| FitsPasses(r, m) {
        FitsHalved(r, if m == 0 then 0 else m - 1);
      }
      if m: nat :| FitsPasses(Halved(r), m) {
        FitsHalved(r, m);
      }
    } else {
      CleanMeansNoRuns(Pass(list, now), now);
      LastRunEven(r);
    }
  }

  lemma {:induction false} PassShrinks(list: seq<Query>, now: int)
    requires StartsAgain(list, now)
    ensures |Pass(list, now)| < |list|
  {
    if IsExpired(list[0], now) {
      if |list| > 1 {
        PassShrinks(list[2..], now);
      }
    } else {
      PassShrinks(list[1..], now);
    }
  }

  lemma {:induction false} LastRunEven(r: seq<nat>)
    requires r != [] && Last(r) % 2 == 0
    ensures AllBelow(Halved(r), 1) <==> exists m: nat :: FitsPasses(r, m)
  {
    forall k | 0 <= k < |r| ensures Halved(r)[k] == r[k] / 2 {
      HalvedAt(r, k);
    }
    if AllBelow(Halved(r), 1) {
      assert FitsPasses(r, 0);
    }
    if m: nat :| FitsPasses(r, m) {
      assert m == 0;
    }
  }

  /** An input on which the sweep leaves an expired query: two of them in front of a live one. */
  lemma {:induction false} SweepCanLeaveExpired(a: Query, b: Query, c: Query, now: int)
    requires IsExpired(a, now) && IsExpired(b, now) && !IsExpired(c, now)
    ensures Survivors([a, b, c], 0, now) == [b, c]
  {
    assert [a, b, c][..0] + [a, b, c][1..] == [b, c];
    assert Survivors([b, c], 2, now) == [b, c];
  }

  // ---------------------------------------------------------------------------
  // Repeated sweeps.
  // ---------------------------------------------------------------------------

  function HalvedTimes(r: seq<nat>, m: nat): (h: seq<nat>)
    ensures |h| == |r|
    decreases m
  {
    if m == 0 then r else HalvedTimes(Halved(r), m - 1)
  }

  /** How many passes a sweep makes over a list whose last run is this long, and what it leaves of
      that run. */
  function PassesOf(last: nat): (m: nat)
    ensures m >= 1
  {
    if last % 2 == 1 then 1 + PassesOf(last / 2) else 1
  }

  function LastAfter(last: nat): nat {
    if last % 2 == 1 then LastAfter(last / 2) else last / 2
  }

  /** A sweep halves every run as many times as the last run decides. */
  lemma {:induction false} SweepHalvesRuns(list: seq<Query>, now: int)
    ensures var last := Last(Runs(list, now));
      var after := Runs(Survivors(list, 0, now), now);
      after == HalvedTimes(Runs(list, now), PassesOf(last)) && Last(after) == LastAfter(last)
    decreases |list|
  {
    hide Survivors, Runs, Pass, StartsAgain;
    var r := Runs(list, now);
    SweepIsPass([], list, now);
    assert [] + list == list && [] + Pass(list, now) == Pass(list, now);
    PassHalvesRuns(list, now);
    HalvedAt(r, |r| - 1);
    if StartsAgain(list, now) {
      PassShrinks(list, now);
      SweepHalvesRuns(Pass(list, now), now);
    } else {
      assert HalvedTimes(r, 1) == HalvedTimes(Halved(r), 0);
    }
  }

  /** n sweeps at one time, and the passes they make. */
  function Sweeps(list: seq<Query>, n: nat, now: int): seq<Query>
    decreases n
  {
    if n == 0 then list else Sweeps(Survivors(list, 0, now), n - 1, now)
  }

  function PassesIn(last: nat, n: nat): (m: nat)
    ensures m >= n
    decreases n
  {
    if n == 0 then 0 else PassesOf(last) + PassesIn(LastAfter(last), n - 1)
  }

  lemma {:induction false} HalvedTwice(r: seq<nat>, a: nat, b: nat)
    ensures HalvedTimes(HalvedTimes(r, a), b) == HalvedTimes(r, a + b)
    decreases a
  {
    if a > 0 {
      HalvedTwice(Halved(r), a - 1, b);
    }
  }

  lemma {:induction false} SweepsHalveRuns(list: seq<Query>, n: nat, now: int)
    ensures Runs(Sweeps(list, n, now), now) == HalvedTimes(Runs(list, now), PassesIn(Last(Runs(list, now)), n))
    decreases n
  {
    hide Survivors, Runs, HalvedTimes, PassesOf, LastAfter;
    var r := Runs(list, now);
    if n == 0 {
      NoHalving(r);
    } else {
      SweepHalvesRuns(list, now);
      SweepsHalveRuns(Survivors(list, 0, now), n - 1, now);
      HalvedTwice(r, PassesOf(Last(r)), PassesIn(LastAfter(Last(r)), n - 1));
    }
  }

  lemma {:induction false} NoHalving(r: seq<nat>)
    ensures HalvedTimes(r, 0) == r
  {
  }

  lemma {:induction false} BelowHalved(r: seq<nat>, m: nat)
    ensures AllBelow(HalvedTimes(r, m), 1) <==> AllBelow(r, Pow2(m))
    decreases m
  {
    if m > 0 {
      BelowHalved(Halved(r), m - 1);
      forall k | 0 <= k < |r| ensures Halved(r)[k] == r[k] / 2 {
        HalvedAt(r, k);
      }
      assert forall k :: 0 <= k < |r| ==> (Halved(r)[k] < Pow2(m - 1) <==> r[k] < Pow2(m));
    }
  }

  /** n sweeps at one time remove every expired query exactly if every run of them is shorter than
      two to the number of passes made. */
  lemma {:induction false} SweepsRemoveAllIff(list: seq<Query>, n: nat, now: int)
    ensures NoneExpired(Sweeps(list, n, now), now) <==>
      AllBelow(Runs(list, now), Pow2(PassesIn(Last(Runs(list, now)), n)))
  {
    hide Runs, Sweeps, NoneExpired, AllBelow, Pow2, HalvedTimes, PassesIn;
    var r := Runs(list, now);
    CleanMeansNoRuns(Sweeps(list, n, now), now);
    SweepsHalveRuns(list, n, now);
    BelowHalved(r, PassesIn(Last(r), n));
  }

  lemma {:induction false} Pow2Grows(a: nat, b: nat)
    requires a <= b
    ensures Pow2(a) <= Pow2(b)
  {
    if a < b {
      Pow2Grows(a, b - 1);
    }
  }

  /** So n sweeps are enough if no run has 2^n expired queries or more. */
  lemma {:induction false} SweepsAreEnough(list: seq<Query>, n: nat, now: int)
    requires AllBelow(Runs(list, now), Pow2(n))
    ensures NoneExpired(Sweeps(list, n, now), now)
  {
    hide Runs, Sweeps, NoneExpired, Pow2;
    SweepsRemoveAllIff(list, n, now);
    Pow2Grows(n, PassesIn(Last(Runs(list, now)), n));
  }
}
