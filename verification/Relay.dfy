/** relay.c and the sending side of udp.c over all interfaces: timeout sweeps, retries, the choice
    of a server for a query, and failover while sending. */
module Relay {
  import opened Servers

  /** strncmp with 9 characters finds the names equal. */
  predicate SameName(a: string, b: string) {
    (if |a| < 9 then a else a[..9]) == (if |b| < 9 then b else b[..9])
  }

  predicate Listed(name: string, names: seq<string>) {
    exists k :: 0 <= k < |names| && SameName(name, names[k])
  }

  /** May a query go out on the interface?  Interfaces matched by a special host come first, then
      the configured defaults; with neither every interface will do. */
  predicate Passes(name: string, matched: seq<string>, defaults: seq<string>) {
    if matched != [] then Listed(name, matched)
    else if defaults != [] then Listed(name, defaults)
    else true
  }

  /** Names are the same if they are equal or agree in nine characters; the matched interfaces decide,
      without any the defaults, and without those every interface passes. */
  lemma {:induction false} PassesIff(name: string, matched: seq<string>, defaults: seq<string>)
    ensures var list := if matched != [] then matched else defaults;
      Passes(name, matched, defaults) <==>
        list == []
        || (exists k :: 0 <= k < |list|
                        && (name == list[k] || (|name| >= 9 && |list[k]| >= 9 && name[..9] == list[k][..9])))
  {
    var list := if matched != [] then matched else defaults;
    forall k | 0 <= k < |list|
      ensures SameName(name, list[k]) <==>
        name == list[k] || (|name| >= 9 && |list[k]| >= 9 && name[..9] == list[k][..9])
    {
    }
  }

  /** The first so many indices, from the given one on, of interfaces that pass. */
  function Chosen(names: seq<string>, from: nat, limit: nat, matched: seq<string>, defaults: seq<string>): (c: seq<nat>)
    ensures |c| <= limit
    ensures forall k :: 0 <= k < |c| ==> from <= c[k] < |names| && Passes(names[c[k]], matched, defaults)
    decreases |names| - from
  {
    if limit == 0 || from >= |names| then []
    else if Passes(names[from], matched, defaults) then [from] + Chosen(names, from + 1, limit - 1, matched, defaults)
    else Chosen(names, from + 1, limit, matched, defaults)
  }

  predicate Increasing(c: seq<nat>) {
    forall i, j :: 0 <= i < j < |c| ==> c[i] < c[j]
  }

  /** They are in list order, and a passing interface that was not chosen comes after all chosen
      ones, of which there are as many as allowed. */
  lemma {:induction false} ChosenAreTheFirst(names: seq<string>, from: nat, limit: nat, matched: seq<string>,
                                             defaults: seq<string>, k: nat)
    requires from <= k < |names| && Passes(names[k], matched, defaults)
    ensures var c := Chosen(names, from, limit, matched, defaults);
      && Increasing(c)
      && (k in c || (|c| == limit && forall i :: 0 <= i < |c| ==> c[i] < k))
    decreases |names| - from
  {
    hide Passes;
    ChosenIncrease(names, from, limit, matched, defaults);
    if limit > 0 {
      if Passes(names[from], matched, defaults) {
        if from < k {
          var rest := Chosen(names, from + 1, limit - 1, matched, defaults);
          ChosenAreTheFirst(names, from + 1, limit - 1, matched, defaults, k);
          assert Chosen(names, from, limit, matched, defaults)[1..] == rest;
        } else {
          assert Chosen(names, from, limit, matched, defaults)[0] == k;
        }
      } else {
        ChosenAreTheFirst(names, from + 1, limit, matched, defaults, k);
      }
    }
  }

  lemma {:induction false} ChosenIncrease(names: seq<string>, from: nat, limit: nat, matched: seq<string>, defaults: seq<string>)
    ensures Increasing(Chosen(names, from, limit, matched, defaults))
    decreases |names| - from
  {
    hide Passes;
    if limit > 0 && from < |names| {
      var c := Chosen(names, from, limit, matched, defaults);
      if Passes(names[from], matched, defaults) {
        ChosenIncrease(names, from + 1, limit - 1, matched, defaults);
        var rest := Chosen(names, from + 1, limit - 1, matched, defaults);
        assert c == [from] + rest;
        forall i, j | 0 <= i < j < |c| ensures c[i] < c[j] {
          assert c[j] == rest[j - 1];
          assert rest[j - 1] > from;
          assert i > 0 ==> c[i] == rest[i - 1] && rest[i - 1] < rest[j - 1];
        }
      } else {
        ChosenIncrease(names, from + 1, limit, matched, defaults);
        assert c == Chosen(names, from + 1, limit, matched, defaults);
      }
    }
  }

  /** What sending may change at an interface: its current server and that one's place in the list,
      whether it has a request outstanding, and which servers are active. */
  datatype Face = Face(current: SrvNode?, cur: nat, waiting: bool, flags: seq<bool>)

  /** What sending on an interface comes to: nothing if it has no current server; otherwise the
      server it ends with has a request outstanding, or every server was given up.  That server is
      the one it started with, or the first after it that was not given up. */
  ghost predicate SentOn(before: Face, after: Face) {
    && (before.current == null ==> after == before)
    && (before.current != null && after.current == null ==> after.flags == Nobody(|before.flags|))
    && (after.current != null ==> after.waiting)
    && |after.flags| == |before.flags| && before.cur < |before.flags| && after.cur < |before.flags|
    && (forall i :: 0 <= i < |after.flags| && after.flags[i] ==> before.flags[i])
    && ((after.cur == before.cur && after.flags == before.flags) || FirstActive(after.flags, before.cur, after.cur))
  }

  /** What a sweep has to do at an interface: the new inactivity of its servers, and whether the
      current one, at its place, is overdue. */
  datatype Plan = Plan(fields: seq<Fields>, stale: bool, cur: nat)

  /** It did that: exactly these servers are inactive, and the current server moved on to the next
      active one if it was overdue, and only then. */
  ghost predicate SweptAs(f: Face, fields: seq<Fields>, p: Plan) {
    && fields == p.fields
    && (if p.stale then p.cur < |f.flags| && f.cur < |f.flags| && FirstActive(f.flags, p.cur, f.cur) else f.cur == p.cur)
  }

  /** Sending happened on exactly the used interfaces, and their servers were noted. */
  ghost predicate AllSent(before: seq<Face>, after: seq<Face>, used: seq<nat>, srvList: seq<SrvNode?>) {
    && |before| == |after| && |srvList| == |used|
    && (forall c :: 0 <= c < |used| ==> used[c] < |after| && srvList[c] == after[used[c]].current)
    && (forall a :: 0 <= a < |after| ==> if a in used then SentOn(before[a], after[a]) else after[a] == before[a])
  }

  lemma {:induction false} NothingSent(before: seq<Face>)
    ensures AllSent(before, before, [], [])
  {
  }

  lemma {:induction false} OneMoreSent(before: seq<Face>, f: seq<Face>, k: nat, face: Face, used: seq<nat>, srvList: seq<SrvNode?>)
    requires AllSent(before, f, used, srvList) && k < |f| && k !in used && SentOn(f[k], face)
    ensures f[k] == before[k] && AllSent(before, f[k := face], used + [k], srvList + [face.current])
  {
    hide SentOn;
    var after := f[k := face];
    forall a | 0 <= a < |after|
      ensures if a in used + [k] then SentOn(before[a], after[a]) else after[a] == before[a]
    {
      assert a in used + [k] <==> a in used || a == k;
    }
  }

  /** The interfaces used before the k-th are the chosen ones among them. */
  ghost predicate ChosenSoFar(names: seq<string>, k: nat, limit: nat, matched: seq<string>, defaults: seq<string>,
                              used: seq<nat>)
  {
    && k <= |names| && |used| <= limit && (forall c :: 0 <= c < |used| ==> used[c] < k)
    && (|used| == limit > 0 ==> used[limit - 1] + 1 == k)
    && used + Chosen(names, k, limit - |used|, matched, defaults) == Chosen(names, 0, limit, matched, defaults)
  }

  lemma {:induction false} ChosenStart(names: seq<string>, limit: nat, matched: seq<string>, defaults: seq<string>)
    ensures ChosenSoFar(names, 0, limit, matched, defaults, [])
  {
    assert [] + Chosen(names, 0, limit, matched, defaults) == Chosen(names, 0, limit, matched, defaults);
  }

  lemma {:induction false} ChosenStep(names: seq<string>, k: nat, limit: nat, matched: seq<string>, defaults: seq<string>,
                                      used: seq<nat>)
    requires ChosenSoFar(names, k, limit, matched, defaults, used) && |used| < limit && k < |names|
    ensures k !in used
    ensures ChosenSoFar(names, k + 1, limit, matched, defaults,
                        if Passes(names[k], matched, defaults) then used + [k] else used)
  {
    hide Passes;
    var rest := Chosen(names, k, limit - |used|, matched, defaults);
    if Passes(names[k], matched, defaults) {
      var after := Chosen(names, k + 1, limit - |used| - 1, matched, defaults);
      assert used + ([k] + after) == (used + [k]) + after;
    }
  }

  /** The interface behind the last one looked at. */
  function Stop(used: seq<nat>, limit: nat, size: nat): nat {
    if |used| == limit > 0 then used[|used| - 1] + 1 else size
  }

  lemma {:induction false} ChosenEnd(names: seq<string>, k: nat, limit: nat, matched: seq<string>, defaults: seq<string>,
                                     used: seq<nat>)
    requires ChosenSoFar(names, k, limit, matched, defaults, used) && limit > 0 && (k == |names| || |used| == limit)
    ensures used == Chosen(names, 0, limit, matched, defaults) && k == Stop(used, limit, |names|) && k !in used
  {
    hide Passes;
    assert used + [] == used;
  }

  lemma {:induction false} BehindIsUnsent(before: seq<Face>, after: seq<Face>, used: seq<nat>, srvList: seq<SrvNode?>, k: nat)
    requires AllSent(before, after, used, srvList) && k < |after| && k !in used
    ensures after[k] == before[k] && |before| == |after|
  {
  }

  /** None of the used interfaces had a current server. */
  ghost predicate Idle(before: seq<Face>, used: seq<nat>) {
    forall c :: 0 <= c < |used| && used[c] < |before| ==> before[used[c]].current == null
  }

  lemma {:induction false} IdleStep(before: seq<Face>, used: seq<nat>, k: nat)
    requires k < |before|
    ensures Idle(before, used + [k]) <==> Idle(before, used) && before[k].current == null
  {
    if Idle(before, used + [k]) {
      forall c | 0 <= c < |used| && used[c] < |before| ensures before[used[c]].current == null {
        assert (used + [k])[c] == used[c];
      }
      assert (used + [k])[|used|] == k;
    }
  }

  // ---------------------------------------------------------------------------
  // What sending comes to, and what is reported of it.
  // ---------------------------------------------------------------------------

  /** Some server took the message. */
  predicate Taken(srvList: seq<SrvNode?>) {
    exists c :: 0 <= c < |srvList| && srvList[c] != null
  }

  /** How often an interface can be tried before its servers are all given up. */
  ghost function Load(f: Face): nat {
    if f.current == null then 0 else ActiveCount(f.flags)
  }

  ghost function Budget(before: seq<Face>, used: seq<nat>): nat
    requires forall c :: 0 <= c < |used| ==> used[c] < |before|
  {
    if used == [] then 0 else Budget(before, used[..|used| - 1]) + Load(before[used[|used| - 1]])
  }

  /** One of these attempts succeeds. */
  ghost predicate Succeeds(oracle: nat -> bool, from: nat, next: nat) {
    exists t: nat :: from <= t < next && oracle(t)
  }

  /** Will some server take the message?  The oracle says which attempts, counted from the first
      one of the call, succeed; without reactivation an interface is tried until one does. */
  ghost predicate CanTake(before: seq<Face>, used: seq<nat>, oracle: nat -> bool, reactivate: bool)
    requires forall c :: 0 <= c < |used| ==> used[c] < |before|
  {
    if reactivate then Succeeds(oracle, 0, Budget(before, used)) else !Idle(before, used)
  }

  /** What send2current reports: whether the interface behind the last one it looked at, or the list
      head, had a current server before anything was sent. */
  ghost predicate Reported(before: seq<Face>, used: seq<nat>, limit: nat, headHasCurrent: bool) {
    var stop := Stop(used, limit, |before|);
    if stop < |before| then before[stop].current != null else headHasCurrent
  }

  /** Where the attempts at an interface end: behind the first that succeeds, at most n of them. */
  ghost function AttemptsEnd(oracle: nat -> bool, from: nat, n: nat): nat
    decreases n
  {
    if n == 0 then from else if oracle(from) then from + 1 else AttemptsEnd(oracle, from + 1, n - 1)
  }

  /** With reactivation: the number of attempts at the used interfaces. */
  ghost function Attempts(before: seq<Face>, used: seq<nat>, oracle: nat -> bool): nat
    requires forall c :: 0 <= c < |used| ==> used[c] < |before|
  {
    if used == [] then 0
    else AttemptsEnd(oracle, Attempts(before, used[..|used| - 1], oracle), Load(before[used[|used| - 1]]))
  }

  /** The last used interface will end with a server: it has one, and with reactivation one of the
      attempts it is good for succeeds. */
  ghost predicate Serves(before: seq<Face>, used: seq<nat>, oracle: nat -> bool, reactivate: bool)
    requires used != [] && forall c :: 0 <= c < |used| ==> used[c] < |before|
  {
    var f, from := before[used[|used| - 1]], Attempts(before, used[..|used| - 1], oracle);
    f.current != null && (reactivate ==> Succeeds(oracle, from, from + Load(f)))
  }

  /** How many of the used interfaces will end with a server. */
  ghost function ServedCount(before: seq<Face>, used: seq<nat>, oracle: nat -> bool, reactivate: bool): (n: nat)
    requires forall c :: 0 <= c < |used| ==> used[c] < |before|
    ensures n <= |used|
  {
    if used == [] then 0
    else ServedCount(before, used[..|used| - 1], oracle, reactivate) + if Serves(before, used, oracle, reactivate) then 1 else 0
  }

  /** How many servers took the message. */
  function Takers(srvList: seq<SrvNode?>): nat {
    if srvList == [] then 0
    else Takers(srvList[..|srvList| - 1]) + if srvList[|srvList| - 1] != null then 1 else 0
  }

  /** The attempts at one interface. */
  ghost predicate Tried(before: Face, after: Face, oracle: nat -> bool, from: nat, next: nat, reactivate: bool) {
    && from <= next
    && (before.current == null ==> next == from && after.current == null)
    && (before.current != null && after.current != null ==>
          from < next && oracle(next - 1) && !Succeeds(oracle, from, next - 1))
    && (before.current != null && after.current == null ==>
          reactivate && next - from == Load(before) && !Succeeds(oracle, from, next))
    && (reactivate ==> next - from <= Load(before))
  }

  /** The attempts so far. */
  ghost predicate Tally(before: seq<Face>, used: seq<nat>, srvList: seq<SrvNode?>, oracle: nat -> bool, sends: nat,
                        reactivate: bool)
  {
    && (forall c :: 0 <= c < |used| ==> used[c] < |before|)
    && Takers(srvList) == ServedCount(before, used, oracle, reactivate)
    && (reactivate ==> sends == Attempts(before, used, oracle) <= Budget(before, used))
    && (reactivate ==> (Taken(srvList) <==> Succeeds(oracle, 0, sends)))
    && (reactivate && !Taken(srvList) ==> sends == Budget(before, used))
    && (!reactivate ==> (Taken(srvList) <==> !Idle(before, used)))
  }

  lemma {:induction false} TallyStarts(before: seq<Face>, oracle: nat -> bool, reactivate: bool)
    ensures Tally(before, [], [], oracle, 0, reactivate)
  {
  }

  lemma {:induction false} TakenSnoc(srvList: seq<SrvNode?>, s: SrvNode?)
    ensures Taken(srvList + [s]) <==> Taken(srvList) || s != null
  {
    if Taken(srvList) {
      var c :| 0 <= c < |srvList| && srvList[c] != null;
      assert (srvList + [s])[c] != null;
    }
    if s != null {
      assert (srvList + [s])[|srvList|] != null;
    }
  }

  lemma {:induction false} EndOfAttempts(oracle: nat -> bool, from: nat, n: nat, next: nat)
    requires from <= next <= from + n
    requires if from < next && oracle(next - 1) then !Succeeds(oracle, from, next - 1)
             else next == from + n && !Succeeds(oracle, from, next)
    ensures AttemptsEnd(oracle, from, n) == next
    decreases n
  {
    if n > 0 {
      if from + 1 < next {
        assert !oracle(from) by {
          assert from <= from < next - 1;
        }
        assert Succeeds(oracle, from + 1, next - 1) ==> Succeeds(oracle, from, next - 1);
        assert Succeeds(oracle, from + 1, next) ==> Succeeds(oracle, from, next);
        EndOfAttempts(oracle, from + 1, n - 1, next);
      } else if from + 1 == next && !oracle(from) {
        EndOfAttempts(oracle, from + 1, n - 1, next);
      }
    }
  }

  lemma {:induction false} TriedServes(before: Face, after: Face, oracle: nat -> bool, from: nat, next: nat, reactivate: bool)
    requires Tried(before, after, oracle, from, next, reactivate)
    ensures reactivate ==> next == AttemptsEnd(oracle, from, Load(before))
    ensures after.current != null <==>
      before.current != null && (reactivate ==> Succeeds(oracle, from, from + Load(before)))
  {
    hide Load;
    if before.current == null {
      NoLoad(before);
    } else if reactivate {
      EndOfAttempts(oracle, from, Load(before), next);
      if after.current != null {
        assert from <= next - 1 < from + Load(before) && oracle(next - 1);
      }
    }
  }

  lemma {:induction false} TallyStep(before: seq<Face>, used: seq<nat>, srvList: seq<SrvNode?>, oracle: nat -> bool,
                                     from: nat, reactivate: bool, k: nat, after: Face, next: nat)
    requires Tally(before, used, srvList, oracle, from, reactivate) && k < |before|
    requires Tried(before[k], after, oracle, from, next, reactivate)
    ensures Tally(before, used + [k], srvList + [after.current], oracle, next, reactivate)
  {
    hide Taken, Idle, Load, AttemptsEnd;
    TakenSnoc(srvList, after.current);
    IdleStep(before, used, k);
    TriedServes(before[k], after, oracle, from, next, reactivate);
    assert (used + [k])[..|used|] == used && (srvList + [after.current])[..|srvList|] == srvList;
    assert Budget(before, used + [k]) == Budget(before, used) + Load(before[k]);
    assert Succeeds(oracle, 0, next) <==> Succeeds(oracle, 0, from) || Succeeds(oracle, from, next);
    if before[k].current != null && after.current != null {
      assert from <= next - 1 < next && oracle(next - 1);
    }
    if before[k].current == null {
      NoLoad(before[k]);
    }
  }

  lemma {:induction false} NoLoad(f: Face)
    requires f.current == null
    ensures Load(f) == 0
  {
  }

  /** Whether a server takes the message is decided by the state before and the oracle. */
  lemma {:induction false} TakenIff(before: seq<Face>, used: seq<nat>, srvList: seq<SrvNode?>, oracle: nat -> bool,
                                    sends: nat, reactivate: bool)
    requires Tally(before, used, srvList, oracle, sends, reactivate)
    ensures Taken(srvList) <==> CanTake(before, used, oracle, reactivate)
    ensures Takers(srvList) == ServedCount(before, used, oracle, reactivate)
  {
    hide Taken, Idle, Budget, Takers, ServedCount;
  }

  // ---------------------------------------------------------------------------
  // What can be known before anything is sent.
  // ---------------------------------------------------------------------------

  /** A current server is active: an interface that has one is good for an attempt. */
  ghost predicate Loaded(before: seq<Face>) {
    forall k :: 0 <= k < |before| && before[k].current != null ==> Load(before[k]) > 0
  }

  lemma {:induction false} BudgetIsZeroIff(before: seq<Face>, used: seq<nat>)
    requires Loaded(before) && forall c :: 0 <= c < |used| ==> used[c] < |before|
    ensures Budget(before, used) == 0 <==> Idle(before, used)
  {
    hide Idle;
    if used == [] {
      NobodyIdle(before, used);
    } else {
      var front, k := used[..|used| - 1], used[|used| - 1];
      BudgetIsZeroIff(before, front);
      IdleStep(before, front, k);
      assert used == front + [k];
    }
  }

  lemma {:induction false} NobodyIdle(before: seq<Face>, used: seq<nat>)
    requires used == []
    ensures Idle(before, used)
  {
  }

  /** The report is sure to be right, whatever becomes of the attempts, exactly if no used interface
      has a server and that is what is reported.  Without reactivation the outcome is known. */
  lemma {:induction false} ReportIsSureIff(before: seq<Face>, used: seq<nat>, limit: nat, headHasCurrent: bool)
    requires Loaded(before) && forall c :: 0 <= c < |used| ==> used[c] < |before|
    ensures (forall oracle :: Reported(before, used, limit, headHasCurrent) <==> CanTake(before, used, oracle, true))
      <==> Idle(before, used) && !Reported(before, used, limit, headHasCurrent)
    ensures forall oracle :: CanTake(before, used, oracle, false) <==> !Idle(before, used)
  {
    hide Idle, Budget, Reported;
    BudgetIsZeroIff(before, used);
    var never: nat -> bool := _ => false;
    var always: nat -> bool := _ => true;
    assert !CanTake(before, used, never, true);
    assert CanTake(before, used, always, true) <==> Budget(before, used) > 0 by {
      if Budget(before, used) > 0 {
        assert always(0);
      }
    }
  }

  /** Every used interface has a current server. */
  ghost predicate NoneMissing(before: seq<Face>, used: seq<nat>) {
    forall c :: 0 <= c < |used| && used[c] < |before| ==> before[used[c]].current != null
  }

  lemma {:induction false} NoneMissingStep(before: seq<Face>, used: seq<nat>, k: nat)
    requires k < |before|
    ensures NoneMissing(before, used + [k]) <==> NoneMissing(before, used) && before[k].current != null
  {
    if NoneMissing(before, used + [k]) {
      forall c | 0 <= c < |used| && used[c] < |before| ensures before[used[c]].current != null {
        assert (used + [k])[c] == used[c];
      }
      assert (used + [k])[|used|] == k;
    }
  }

  /** Every interface used ends with a server only if each has one before; without reactivation, or
      if every attempt succeeds, that is enough. */
  lemma {:induction false} AllServedNeeds(before: seq<Face>, used: seq<nat>, oracle: nat -> bool, reactivate: bool)
    requires Loaded(before) && forall c :: 0 <= c < |used| ==> used[c] < |before|
    ensures ServedCount(before, used, oracle, reactivate) == |used| ==> NoneMissing(before, used)
    ensures NoneMissing(before, used) && (!reactivate || forall t: nat :: oracle(t)) ==>
      ServedCount(before, used, oracle, reactivate) == |used|
  {
    hide NoneMissing, Load, Attempts;
    if used == [] {
      NothingMissing(before, used);
    } else {
      var front, k := used[..|used| - 1], used[|used| - 1];
      AllServedNeeds(before, front, oracle, reactivate);
      NoneMissingStep(before, front, k);
      assert used == front + [k];
      if before[k].current != null && forall t: nat :: oracle(t) {
        var from := Attempts(before, front, oracle);
        assert oracle(from);
      }
    }
  }

  lemma {:induction false} NothingMissing(before: seq<Face>, used: seq<nat>)
    requires used == []
    ensures NoneMissing(before, used)
  {
  }

  lemma {:induction false} NobodyServed(before: seq<Face>, used: seq<nat>, oracle: nat -> bool)
    requires forall t: nat :: !oracle(t)
    requires forall c :: 0 <= c < |used| ==> used[c] < |before|
    ensures ServedCount(before, used, oracle, true) == 0
  {
    hide Load, Attempts;
    if used != [] {
      NobodyServed(before, used[..|used| - 1], oracle);
    }
  }

  /** When as many servers take a message as interfaces are used: without reactivation exactly if each
      of them has a current server; with it, that is exactly when some outcome of the attempts makes
      it so, and no state makes sure of it. */
  lemma {:induction false} AllServedIff(before: seq<Face>, used: seq<nat>)
    requires Loaded(before) && forall c :: 0 <= c < |used| ==> used[c] < |before|
    ensures forall oracle :: ServedCount(before, used, oracle, false) == |used| <==> NoneMissing(before, used)
    ensures (exists oracle :: ServedCount(before, used, oracle, true) == |used|) <==> NoneMissing(before, used)
    ensures (forall oracle :: ServedCount(before, used, oracle, true) == |used|) <==> used == []
  {
    hide NoneMissing, ServedCount;
    var never: nat -> bool := _ => false;
    var always: nat -> bool := _ => true;
    forall oracle ensures ServedCount(before, used, oracle, false) == |used| <==> NoneMissing(before, used) {
      AllServedNeeds(before, used, oracle, false);
    }
    AllServedNeeds(before, used, always, true);
    forall oracle | ServedCount(before, used, oracle, true) == |used| ensures NoneMissing(before, used) {
      AllServedNeeds(before, used, oracle, true);
    }
    NobodyServed(before, used, never);
  }

  /** Two interfaces are used and one has no server: one server takes the message. */
  lemma {:induction false} FewerTakeIt(names: seq<string>, f: Face, g: Face)
    requires |names| == 2 && f.current != null && f.flags == [false, true] && g.current == null
    ensures var before, used := [f, g], Chosen(names, 0, 3, [], []);
      used == [0, 1] && ServedCount(before, used, _ => true, true) == 1
  {
    var before, used := [f, g], Chosen(names, 0, 3, [], []);
    assert Chosen(names, 2, 1, [], []) == [];
    assert Chosen(names, 1, 2, [], []) == [1];
    OneFewer([false, true], 1);
    var oracle: nat -> bool := _ => true;
    assert used[..1] == [0] && used[..1][..0] == [];
    assert oracle(0);
    assert Serves(before, [0], oracle, true);
    assert ServedCount(before, used[..1], oracle, true) == 1;
    assert !Serves(before, used, oracle, true);
  }

  /** Two interfaces with a server each, and the first attempt fails: again one server takes it. */
  lemma {:induction false} FailedSendIsCounted(names: seq<string>, f: Face)
    requires |names| == 2 && f.current != null && f.flags == [false, true]
    ensures var before, used := [f, f], Chosen(names, 0, 3, [], []);
      used == [0, 1] && ServedCount(before, used, t => t > 0, true) == 1
  {
    var before, used := [f, f], Chosen(names, 0, 3, [], []);
    assert Chosen(names, 2, 1, [], []) == [];
    assert Chosen(names, 1, 2, [], []) == [1];
    OneFewer([false, true], 1);
    var a := [false, true];
    assert a[1 := false] == [false, false] && [false, false][..1] == [false] && [false][..0] == [];
    assert Load(f) == 1;
    var oracle: nat -> bool := t => t > 0;
    assert used[..1] == [0] && used[..1][..0] == [];
    assert !oracle(0) && oracle(1);
    assert Attempts(before, [0], oracle) == 1;
    assert !Serves(before, [0], oracle, true);
    assert ServedCount(before, used[..1], oracle, true) == 0;
    assert Serves(before, used, oracle, true);
  }

  /** Three interfaces take the message and the fourth has no server: success is reported as failure. */
  lemma {:induction false} TakenButNotReported(names: seq<string>, f: Face, g: Face, headHasCurrent: bool)
    requires |names| == 4 && f.current != null && f.flags == [false, true] && g.current == null
    ensures var before, used := [f, f, f, g], Chosen(names, 0, 3, [], []);
      used == [0, 1, 2] && CanTake(before, used, _ => true, true) && !Reported(before, used, 3, headHasCurrent)
  {
    var before, used := [f, f, f, g], Chosen(names, 0, 3, [], []);
    assert Chosen(names, 3, 0, [], []) == [];
    assert Chosen(names, 2, 1, [], []) == [2];
    assert Chosen(names, 1, 2, [], []) == [1, 2];
    assert ActiveCount([false, true]) == 1 by {
      OneFewer([false, true], 1);
    }
    assert used[..2] == [0, 1];
    assert Budget(before, used) >= Load(before[2]) == 1;
    var oracle: nat -> bool := _ => true;
    assert oracle(0);
  }

  /** No interface has a server, but the list head does: nothing was sent and success is reported. */
  lemma {:induction false} ReportedButNotTaken(names: seq<string>, g: Face, oracle: nat -> bool)
    requires |names| == 2 && g.current == null
    ensures var before, used := [g, g], Chosen(names, 0, 3, [], []);
      used == [0, 1] && !CanTake(before, used, oracle, true) && Reported(before, used, 3, true)
  {
    var before, used := [g, g], Chosen(names, 0, 3, [], []);
    assert Chosen(names, 2, 1, [], []) == [];
    assert Chosen(names, 1, 2, [], []) == [1];
    assert used == [0, 1] && used[..1] == [0] && used[..1][..0] == [];
    assert Budget(before, used[..1]) == 0;
    assert Budget(before, used) == 0;
  }

  class Relay {
    /** The interfaces behind the list head, in list order, and their server lists: both are fixed
        once the daemon runs. */
    const infs: seq<InfNode>
    ghost const rings: seq<seq<SrvNode>>
    ghost const nodes: set<SrvNode>
    const forwardTimeout: int
    const reactivateInterval: int
    var lastDeactivate: int
    var lastReactivate: int

    /** No two interfaces share a server node. */
    ghost predicate Separate() {
      && |rings| == |infs|
      && (forall i, j :: 0 <= i < j < |infs| ==> infs[i] != infs[j])
      && (forall k, n :: 0 <= k < |infs| && n in rings[k] ==> n in nodes)
      && (forall i, j, n :: 0 <= i < |infs| && 0 <= j < |infs| && n in rings[i] && n in rings[j] ==> i == j)
    }

    ghost predicate Good(k: nat)
      requires k < |infs| && Separate()
      reads infs, nodes
    {
      infs[k].ring == rings[k] && infs[k].Valid()
    }

    ghost predicate Valid()
      reads infs, nodes
    {
      && Separate()
      && (forall k :: 0 <= k < |infs| ==> Good(k))
      && (forall k :: 0 <= k < |infs| ==> infs[k].cur < |infs[k].ring| && (infs[k].cur == 0 <==> infs[k].current == null))
    }

    constructor (infs: seq<InfNode>, forwardTimeout: int, reactivateInterval: int)
      requires forall i, j :: 0 <= i < j < |infs| ==> infs[i] != infs[j]
      requires forall i, j, n :: 0 <= i < |infs| && 0 <= j < |infs| && n in infs[i].ring && n in infs[j].ring ==> i == j
      requires forall k :: 0 <= k < |infs| ==> infs[k].Valid()
      ensures Valid() && this.infs == infs && this.forwardTimeout == forwardTimeout
      ensures this.reactivateInterval == reactivateInterval && lastDeactivate == 0 && lastReactivate == 0
    {
      this.infs, this.forwardTimeout, this.reactivateInterval := infs, forwardTimeout, reactivateInterval;
      lastDeactivate, lastReactivate := 0, 0;
      rings := seq(|infs|, k requires 0 <= k < |infs| reads infs => infs[k].ring);
      nodes := set k, n | 0 <= k < |infs| && n in infs[k].ring :: n;
    }

    lemma {:induction false} Apart(i: nat, j: nat)
      requires Separate() && i < |infs| && j < |infs| && i != j
      ensures infs[i] != infs[j]
      ensures forall x :: 0 <= x < |rings[i]| ==> rings[i][x] !in rings[j] && rings[i][x] in nodes
    {
    }

    /** The changing fields of an interface's servers. */
    ghost function NodeFields(k: nat): (f: seq<Fields>)
      requires k < |rings|
      reads rings[k]
      ensures |f| == |rings[k]|
      ensures forall i :: 0 <= i < |f| ==> f[i] == Fields(rings[k][i].inactive, rings[k][i].sendTime, rings[k][i].sendCount)
    {
      seq(|rings[k]|, i requires 0 <= i < |rings[k]| reads rings[k] =>
        Fields(rings[k][i].inactive, rings[k][i].sendTime, rings[k][i].sendCount))
    }

    /** What a sweep makes of them. */
    ghost function SweptFields(k: nat, now: int): (f: seq<Fields>)
      requires k < |rings|
      reads rings[k]
      ensures |f| == |rings[k]|
      ensures forall i :: 0 <= i < |f| ==>
        var was := NodeFields(k)[i];
        f[i] == if i > 0 && was.inactive == 0 && was.sendTime != 0 && now - was.sendTime > forwardTimeout
                then was.(inactive := now) else was
    {
      seq(|rings[k]|, i requires 0 <= i < |rings[k]| reads rings[k] =>
        var was := NodeFields(k)[i];
        if i > 0 && was.inactive == 0 && was.sendTime != 0 && now - was.sendTime > forwardTimeout
        then was.(inactive := now) else was)
    }

    ghost function PlanOf(k: nat, now: int): Plan
      requires k < |infs| && Separate() && Good(k)
      reads infs, nodes
    {
      Plan(SweptFields(k, now),
           infs[k].cur != 0 && infs[k].current.sendTime != 0 && now - infs[k].current.sendTime > forwardTimeout,
           infs[k].cur)
    }

    /** In send times: what a sweep will make of an interface. */
    lemma {:induction false} PlanInTimes(k: nat, now: int)
      requires k < |infs| && Separate() && Good(k)
      ensures var p, f, t := PlanOf(k, now), NodeFields(k), forwardTimeout;
        && |p.fields| == |f| && p.cur == FaceOf(k).cur < |f|
        && (forall i :: 0 < i < |f| ==>
             p.fields[i] == if f[i].inactive == 0 && f[i].sendTime != 0 && now - f[i].sendTime > t then f[i].(inactive := now)
                            else f[i])
        && (p.stale <==> p.cur != 0 && f[p.cur].sendTime != 0 && now - f[p.cur].sendTime > t)
    {
    }

    /** One turn of the sweep over the interfaces. */
    method SweepInterface(k: nat, now: int)
      requires Valid() && now > 0 && k < |infs|
      modifies {infs[k]}`current, {infs[k]}`cur, rings[k]`inactive
      ensures Valid() && SweptAs(FaceOf(k), NodeFields(k), old(PlanOf(k, now)))
      ensures forall a :: 0 <= a < |infs| && a != k ==>
        FaceOf(a) == old(FaceOf(a)) && NodeFields(a) == old(NodeFields(a)) && PlanOf(a, now) == old(PlanOf(a, now))
    {
      hide InfNode.Linked, FirstActive, InfNode.Flags, NodeFields, SweptFields;
      assert Good(k);
      ghost var before := NodeFields(k);
      infs[k].DeactivateStale(now, forwardTimeout);
      assert forall i :: 0 <= i < |rings[k]| ==> NodeFields(k)[i] == infs[k].FieldsOf(i) && before[i] == old(infs[k].FieldsOf(i));
      assert NodeFields(k) == old(SweptFields(k, now));
      forall a | 0 <= a < |infs| && a != k
        ensures Good(a) && FaceOf(a) == old(FaceOf(a)) && NodeFields(a) == old(NodeFields(a))
        ensures PlanOf(a, now) == old(PlanOf(a, now))
      {
        assert old(Good(a));
        Apart(a, k);
        assert infs[a].ring == rings[a] && unchanged(infs[a]);
        assert forall i :: 0 <= i < |rings[a]| ==> unchanged(rings[a][i]);
      }
    }

    /** deactivate_servers: runs at most every interval seconds; a sweep that ran gave up exactly the
        active servers with a request outstanding for longer than the timeout, and every such current
        server made room for the next active one. */
    method DeactivateServers(now: int, interval: int) returns (ran: bool)
      requires Valid() && now > 0
      modifies this`lastDeactivate, infs`current, infs`cur, nodes`inactive
      ensures Valid()
      ensures ran <==> now - (if old(lastDeactivate) == 0 then now else old(lastDeactivate)) >= interval
      ensures ran ==> lastDeactivate == now
      ensures ran ==> forall k, i :: 0 <= k < |infs| && 0 < i < |rings[k]| ==>
        var was := old(NodeFields(k)[i]);
        NodeFields(k)[i] == if was.inactive == 0 && was.sendTime != 0 && now - was.sendTime > forwardTimeout
                            then was.(inactive := now) else was
      ensures ran ==> forall k, i :: 0 <= k < |infs| && 0 < i < |rings[k]| && NodeFields(k)[i].inactive == 0 ==>
        NodeFields(k)[i].sendTime == 0 || now - NodeFields(k)[i].sendTime <= forwardTimeout
      ensures ran ==> forall k :: 0 <= k < |infs| ==>
        var f, g := old(FaceOf(k)), FaceOf(k);
        && f.cur < |rings[k]|
        && var t := old(NodeFields(k))[f.cur].sendTime;
           if f.cur != 0 && t != 0 && now - t > forwardTimeout
           then f.cur < |g.flags| && g.cur < |g.flags| && FirstActive(g.flags, f.cur, g.cur) else g.cur == f.cur
      ensures !ran ==> forall k :: 0 <= k < |infs| ==> FaceOf(k) == old(FaceOf(k)) && NodeFields(k) == old(NodeFields(k))
    {
      hide InfNode.Valid, FirstActive, NodeFields, SweptFields, FaceOf, PlanOf;
      forall k: nat | k < |infs| {
        PlanInTimes(k, now);
      }
      if lastDeactivate == 0 {
        lastDeactivate := now;
      }
      if now - lastDeactivate < interval {
        return false;
      }
      lastDeactivate := now;
      for k := 0 to |infs|
        modifies infs`current, infs`cur, nodes`inactive
        invariant Valid()
        invariant forall a :: 0 <= a < k ==> SweptAs(FaceOf(a), NodeFields(a), old(PlanOf(a, now)))
        invariant forall a :: k <= a < |infs| ==> PlanOf(a, now) == old(PlanOf(a, now))
      {
        SweepInterface(k, now);
      }
      ran := true;
    }

    /** If no active server is overdue, neither is the current one. */
    lemma {:induction false} CurrentIsFresh(k: nat, now: int)
      requires k < |infs| && Separate() && Good(k)
      requires forall i :: 0 < i < |rings[k]| && NodeFields(k)[i].inactive == 0 ==>
        NodeFields(k)[i].sendTime == 0 || now - NodeFields(k)[i].sendTime <= forwardTimeout
      ensures infs[k].current != null ==>
        infs[k].current.inactive == 0 && (infs[k].current.sendTime == 0 || now - infs[k].current.sendTime <= forwardTimeout)
    {
      assert infs[k].current != null ==> NodeFields(k)[infs[k].cur].inactive == 0;
    }

    ghost function AllFields(): (f: seq<seq<Fields>>)
      requires Valid()
      reads infs, nodes
      ensures |f| == |infs| == |rings| && forall k :: 0 <= k < |f| ==> f[k] == NodeFields(k)
    {
      seq(|infs|, k requires 0 <= k < |infs| && Separate() reads nodes => NodeFields(k))
    }

    ghost function RetriedFields(k: nat, now: int, delay: int, accepts: SrvNode -> bool): (f: seq<Fields>)
      requires k < |rings|
      reads rings[k]
      ensures |f| == |rings[k]|
      ensures forall i :: 0 <= i < |f| ==>
        f[i] == (if i == 0 then NodeFields(k)[i] else Retried(NodeFields(k)[i], now, delay, accepts(rings[k][i])))
    {
      seq(|rings[k]|, i requires 0 <= i < |rings[k]| reads rings[k] =>
        if i == 0 then NodeFields(k)[i] else Retried(NodeFields(k)[i], now, delay, accepts(rings[k][i])))
    }

    method RetryInterface(k: nat, now: int, delay: int, accepts: SrvNode -> bool) returns (dummies: set<SrvNode>)
      requires Valid() && now > 0 && k < |infs|
      modifies rings[k]`inactive, rings[k]`sendTime, rings[k]`sendCount
      ensures Valid() && NodeFields(k) == old(RetriedFields(k, now, delay, accepts))
      ensures forall i :: 0 <= i < |rings[k]| ==> (rings[k][i] in dummies <==> i > 0 && IsDue(old(NodeFields(k)[i]), now, delay))
      ensures forall a: nat :: a < |infs| && a != k ==> NodeFields(a) == old(NodeFields(a))
      ensures forall a: nat :: a < |infs| && a != k ==>
        RetriedFields(a, now, delay, accepts) == old(RetriedFields(a, now, delay, accepts))
      ensures forall a: nat, i: nat :: a < |infs| && a != k && i < |rings[a]| ==> rings[a][i] !in dummies
    {
      hide InfNode.Linked, FirstActive, IsDue, Retried, NodeFields, RetriedFields;
      assert Good(k);
      ghost var before := NodeFields(k);
      dummies := infs[k].RetrySrvList(now, delay, accepts);
      assert forall i :: 0 <= i < |rings[k]| ==> NodeFields(k)[i] == infs[k].FieldsOf(i) && before[i] == old(infs[k].FieldsOf(i));
      forall a: nat | a < |infs| && a != k
        ensures Good(a) && NodeFields(a) == old(NodeFields(a))
        ensures RetriedFields(a, now, delay, accepts) == old(RetriedFields(a, now, delay, accepts))
        ensures forall i :: 0 <= i < |rings[a]| ==> rings[a][i] !in dummies
      {
        assert old(Good(a));
        Apart(a, k);
        assert infs[a].ring == rings[a] && unchanged(infs[a]);
        assert forall i :: 0 <= i < |rings[a]| ==> unchanged(rings[a][i]);
      }
    }

    /** reactivate_servers: exactly the servers inactive for long enough get a dummy query and a new
        inactivity time; those whose dummy query went out have a request outstanding. */
    method ReactivateServers(now: int, interval: int, accepts: SrvNode -> bool) returns (ran: bool, dummies: set<SrvNode>)
      requires Valid() && now > 0
      modifies this`lastReactivate, nodes`inactive, nodes`sendTime, nodes`sendCount
      ensures Valid()
      ensures ran <==> now - (if old(lastReactivate) == 0 then now else old(lastReactivate)) >= interval
      ensures ran ==> lastReactivate == now
      ensures !ran ==> dummies == {}
      ensures forall k :: 0 <= k < |infs| ==>
        NodeFields(k) == if ran then old(RetriedFields(k, now, interval, accepts)) else old(NodeFields(k))
      ensures ran ==> forall k, i :: 0 <= k < |infs| && 0 <= i < |rings[k]| ==>
        (rings[k][i] in dummies <==> i > 0 && IsDue(old(NodeFields(k)[i]), now, interval))
    {
      hide InfNode.Valid, NodeFields, RetriedFields, IsDue;
      ran, dummies := false, {};
      if lastReactivate == 0 {
        lastReactivate := now;
      }
      if now - lastReactivate < interval {
        return;
      }
      ran, lastReactivate := true, now;
      for k := 0 to |infs|
        modifies nodes`inactive, nodes`sendTime, nodes`sendCount
        invariant Valid()
        invariant forall a :: 0 <= a < k ==> NodeFields(a) == old(RetriedFields(a, now, interval, accepts))
        invariant forall a :: k <= a < |infs| ==> NodeFields(a) == old(NodeFields(a))
        invariant forall a :: k <= a < |infs| ==>
          RetriedFields(a, now, interval, accepts) == old(RetriedFields(a, now, interval, accepts))
        invariant forall a, i :: 0 <= a < |infs| && 0 <= i < |rings[a]| ==>
          (rings[a][i] in dummies <==> a < k && i > 0 && IsDue(old(NodeFields(a)[i]), now, interval))
      {
        var more := RetryInterface(k, now, interval, accepts);
        dummies := dummies + more;
      }
    }

    /** One turn of handle_query's loop over the interfaces. */
    method RestartInterface(k: nat)
      requires Valid() && k < |infs|
      modifies infs[k]
      ensures Valid() && FirstActive(infs[k].Flags(), 0, infs[k].cur)
      ensures infs[k].Flags() == old(infs[k].Flags())
      ensures forall a :: 0 <= a < |infs| && a != k ==> unchanged(infs[a])
    {
      hide InfNode.Linked, FirstActive;
      assert Good(k);
      infs[k].Restart();
      forall a | 0 <= a < |infs| && a != k ensures Good(a) && unchanged(infs[a]) {
        assert old(Good(a));
        Apart(a, k);
      }
    }

    /** Lines 153-162 of relay.c: an overdue current server is given up once. */
    method TimeoutCurrent(k: nat, now: int)
      requires Valid() && now > 0 && k < |infs| && infs[k].cur != 0
      modifies infs[k], set n | n in rings[k]
      ensures Valid() && |infs[k].ring| == old(|infs[k].ring|)
      ensures var sent, cur := old(infs[k].current.sendTime), old(infs[k].cur);
        if sent != 0 && now - sent > forwardTimeout && forwardTimeout != 0 && reactivateInterval != 0
        then infs[k].Flags() == old(infs[k].Flags())[cur := false] && FirstActive(infs[k].Flags(), cur, infs[k].cur)
        else infs[k].Flags() == old(infs[k].Flags()) && infs[k].cur == cur
    {
      hide InfNode.Linked, FirstActive, InfNode.Flags, ActiveCount, Nobody;
      assert Good(k);
      var inf := infs[k];
      if inf.current.sendTime != 0 && forwardTimeout != 0 && reactivateInterval != 0
         && now - inf.current.sendTime > forwardTimeout {
        inf.FailOver(now);
        forall a | 0 <= a < |infs| && a != k ensures Good(a) {
          assert old(Good(a));
          Apart(a, k);
          assert infs[a].ring == rings[a] && unchanged(infs[a]);
          assert forall i :: 0 <= i < |rings[a]| ==> unchanged(rings[a][i]);
        }
      }
    }

    /** The choice of handle_query: the first interface with an active server, or |infs| for the
        list head if there is none. */
    method SelectInterface() returns (k: nat)
      requires Valid() && infs != []
      modifies infs
      ensures Valid() && k <= |infs|
      ensures forall a :: 0 <= a < |infs| ==> infs[a].Flags() == old(infs[a].Flags())
      ensures forall a :: 0 <= a < k ==> infs[a].current == null && infs[a].Flags() == Nobody(|rings[a]|)
      ensures k < |infs| ==> infs[k].cur != 0 && FirstActive(infs[k].Flags(), 0, infs[k].cur)
      ensures forall a :: k < a < |infs| ==> unchanged(infs[a])
    {
      hide InfNode.Valid, FirstActive, InfNode.Flags, Nobody;
      k := 0;
      while k < |infs|
        invariant Valid() && k <= |infs|
        invariant forall a :: 0 <= a < |infs| ==> infs[a].Flags() == old(infs[a].Flags())
        invariant forall a :: 0 <= a < k ==> infs[a].current == null && infs[a].Flags() == Nobody(|rings[a]|)
        invariant forall a :: k <= a < |infs| ==> unchanged(infs[a])
      {
        RestartInterface(k);
        assert Good(k);
        if infs[k].current != null {
          return;
        }
        NobodyLeft(infs[k].Flags(), 0, 0);
        k := k + 1;
      }
    }

    // -------------------------------------------------------------------------
    // udp.c: sending
    // -------------------------------------------------------------------------

    ghost function Names(): (names: seq<string>)
      ensures |names| == |infs| && forall k :: 0 <= k < |infs| ==> names[k] == infs[k].name
    {
      seq(|infs|, k requires 0 <= k < |infs| => infs[k].name)
    }

    ghost function FaceOf(k: nat): Face
      requires k < |infs| && Separate() && Good(k)
      reads infs, nodes
    {
      Face(infs[k].current, infs[k].cur, infs[k].current != null && infs[k].current.sendTime != 0, infs[k].Flags())
    }

    ghost function Faces(): (f: seq<Face>)
      requires Valid()
      reads infs, nodes
      ensures |f| == |infs| && forall k :: 0 <= k < |f| ==> f[k] == FaceOf(k)
    {
      seq(|infs|, k requires 0 <= k < |infs| && Good(k) reads infs, nodes => FaceOf(k))
    }

    method SendInterface(k: nat, oracle: nat -> bool, from: nat, now: int) returns (next: nat)
      requires Valid() && now > 0 && k < |infs| && (reactivateInterval != 0 || SucceedsFrom(oracle, from))
      modifies infs[k], set n | n in rings[k]
      ensures Valid() && Faces() == old(Faces())[k := FaceOf(k)]
      ensures SentOn(old(FaceOf(k)), FaceOf(k)) && infs[k].current == FaceOf(k).current
      ensures Tried(old(FaceOf(k)), FaceOf(k), oracle, from, next, reactivateInterval != 0)
      ensures old(FaceOf(k)) == old(Faces())[k]
    {
      hide InfNode.Linked, FirstActive, InfNode.Flags, ActiveCount, Nobody, SucceedsFrom;
      assert Good(k);
      ghost var before := Faces();
      next := infs[k].SendOn(oracle, from, now, reactivateInterval != 0);
      NobodyCounts(|infs[k].ring|);
      forall a | 0 <= a < |infs| && a != k ensures Good(a) && FaceOf(a) == old(FaceOf(a)) {
        assert old(Good(a));
        Apart(a, k);
        assert infs[a].ring == rings[a] && unchanged(infs[a]);
        assert forall i :: 0 <= i < |rings[a]| ==> unchanged(rings[a][i]);
      }
      assert forall a :: 0 <= a < |infs| && a != k ==> Faces()[a] == before[a];
    }

    /** Sending on one more interface. */
    method SendNext(k: nat, oracle: nat -> bool, from: nat, now: int, ghost before: seq<Face>, ghost used: seq<nat>,
                    srvList: seq<SrvNode?>)
      returns (next: nat, list: seq<SrvNode?>)
      requires Valid() && now > 0 && k < |infs| && (reactivateInterval != 0 || SucceedsFrom(oracle, from))
      requires k !in used && AllSent(before, Faces(), used, srvList)
      requires Tally(before, used, srvList, oracle, from, reactivateInterval != 0)
      modifies infs, nodes
      ensures Valid() && AllSent(before, Faces(), used + [k], list)
      ensures Tally(before, used + [k], list, oracle, next, reactivateInterval != 0)
    {
      hide InfNode.Valid, InfNode.Flags, Tried, Tally, SucceedsFrom, SentOn;
      ghost var f := Faces();
      next := SendInterface(k, oracle, from, now);
      OneMoreSent(before, f, k, FaceOf(k), used, srvList);
      TallyStep(before, used, srvList, oracle, from, reactivateInterval != 0, k, FaceOf(k), next);
      list := srvList + [infs[k].current];
    }

    lemma {:induction false} CurrentIsShown(k: nat)
      requires Valid() && k < |infs|
      ensures Faces()[k].current == infs[k].current
    {
    }

    /** send2current.  used is the list of interfaces used, in order; the server behind used[c]
        becomes srv_list[c], and their number is what serv_sent_cnt grows by.  more is what the
        caller takes for success.  It is settled before anything is sent, and right exactly if the
        interface behind the last one looked at had a current server just when one takes the message. */
    method Send2Current(oracle: nat -> bool, now: int, isDummy: bool, matched: seq<string>, defaults: seq<string>,
                        headHasCurrent: bool)
      returns (used: seq<nat>, srvList: seq<SrvNode?>, more: bool)
      requires Valid() && now > 0
      requires reactivateInterval != 0 || forall n: nat :: SucceedsFrom(oracle, n)
      modifies infs, nodes
      ensures Valid() && used == Chosen(Names(), 0, if isDummy then 1 else 3, matched, defaults)
      ensures AllSent(old(Faces()), Faces(), used, srvList)
      ensures Taken(srvList) <==> CanTake(old(Faces()), used, oracle, reactivateInterval != 0)
      ensures more <==> Reported(old(Faces()), used, if isDummy then 1 else 3, headHasCurrent)
      ensures Takers(srvList) == ServedCount(old(Faces()), used, oracle, reactivateInterval != 0)
    {
      hide Valid, InfNode.Valid, InfNode.Flags, Passes, SucceedsFrom, AllSent, SentOn, Tally, Chosen, Faces, ChosenSoFar,
        Stop, Taken, CanTake;
      ghost var names, before := Names(), Faces();
      var limit := if isDummy then 1 else 3;
      used, srvList := [], [];
      var sends := 0;
      var k := 0;
      NothingSent(before);
      TallyStarts(before, oracle, reactivateInterval != 0);
      ChosenStart(names, limit, matched, defaults);
      while k < |infs| && |used| < limit
        invariant Valid() && k <= |infs| && |used| <= limit && ChosenSoFar(names, k, limit, matched, defaults, used)
        invariant AllSent(before, Faces(), used, srvList)
        invariant Tally(before, used, srvList, oracle, sends, reactivateInterval != 0)
        decreases |infs| - k
      {
        ChosenStep(names, k, limit, matched, defaults, used);
        if Passes(infs[k].name, matched, defaults) {
          sends, srvList := SendNext(k, oracle, sends, now, before, used, srvList);
          used := used + [k];
        }
        k := k + 1;
      }
      ChosenEnd(names, k, limit, matched, defaults, used);
      TakenIff(before, used, srvList, oracle, sends, reactivateInterval != 0);
      if k < |infs| {
        CurrentIsShown(k);
        BehindIsUnsent(before, Faces(), used, srvList, k);
        more := infs[k].current != null;
      } else {
        more := headHasCurrent;
      }
    }

    lemma {:induction false} FacesAreLoaded()
      requires Valid()
      ensures Loaded(Faces())
    {
      hide FirstActive, ActiveCount;
      forall k | 0 <= k < |infs| && Faces()[k].current != null ensures Load(Faces()[k]) > 0 {
        assert Good(k);
        OneFewer(infs[k].Flags(), infs[k].cur);
      }
    }

    /** Is node i of interface k where a reply over the named interface from the address comes from? */
    ghost predicate IsSender(k: nat, i: nat, name: string, addr: nat)
      requires k < |infs| && Separate() && Good(k) && i < |rings[k]|
      reads infs, nodes
    {
      infs[k].name == name && rings[k][i].addr == addr && (i > 0 || |rings[k]| == 1)
    }

    /** The inner loop of search_server, which looks at the list head itself only if it is alone. */
    method SearchInterface(k: nat, addr: nat) returns (s: SrvNode?, ghost n: nat)
      requires Valid() && k < |infs|
      ensures n <= |rings[k]| && s == (if n < |rings[k]| then rings[k][n] else null)
      ensures s != null ==> s in rings[k] && s.addr == addr
      ensures n < |rings[k]| ==> IsSender(k, n, infs[k].name, addr)
      ensures forall i :: 0 <= i < n ==> !IsSender(k, i, infs[k].name, addr)
    {
      hide InfNode.Flags;
      assert Good(k);
      var inf := infs[k];
      inf.NextInRing(0);
      var p: SrvNode := inf.srvlist.next;
      n := if |rings[k]| == 1 then 0 else 1;
      if p.addr == addr {
        return p, n;
      }
      while p.next != inf.srvlist
        invariant n < |rings[k]| && p == rings[k][n] && (n > 0 || |rings[k]| == 1)
        invariant forall i :: 0 <= i <= n ==> !IsSender(k, i, inf.name, addr)
        decreases |rings[k]| - n
      {
        inf.NextInRing(n);
        p := p.next;
        n := n + 1;
        if p.addr == addr {
          return p, n;
        }
      }
      inf.NextInRing(n);
      return null, n + 1;
    }

    /** search_server: the first server, in list order, that the reply can come from, if any. */
    method SearchServer(name: string, addr: nat) returns (s: SrvNode?, ghost k: nat, ghost n: nat)
      requires Valid() && infs != []
      ensures k <= |infs| && (s == null <==> k == |infs|)
      ensures s != null ==> s.addr == addr && exists a :: 0 <= a < |infs| && infs[a].name == name && s in rings[a]
      ensures k < |infs| ==> n < |rings[k]| && s == rings[k][n] && IsSender(k, n, name, addr) && (n > 0 || |rings[k]| == 1)
      ensures k < |infs| ==> forall i :: 0 <= i < n ==> !IsSender(k, i, name, addr)
      ensures forall a, i :: 0 <= a < k && 0 <= i < |rings[a]| ==> !IsSender(a, i, name, addr)
    {
      hide InfNode.Valid;
      var j := 0;
      while j < |infs|
        invariant j <= |infs|
        invariant forall a, i :: 0 <= a < j && 0 <= i < |rings[a]| ==> !IsSender(a, i, name, addr)
      {
        if infs[j].name == name {
          s, n := SearchInterface(j, addr);
          if s != null {
            k := j;
            return;
          }
        }
        j := j + 1;
      }
      return null, j, 0;
    }

    /** The server is the first one of an interface with this name that has the address; null stands
        for none. */
    ghost predicate FirstFrom(name: string, addr: nat, s: SrvNode?)
      requires |rings| == |infs|
      reads set k, i | 0 <= k < |rings| && 0 <= i < |rings[k]| :: rings[k][i]
    {
      if s == null then
        forall k, i :: 0 <= k < |infs| && 0 < i < |rings[k]| ==> infs[k].name != name || rings[k][i].addr != addr
      else
        exists k, i :: 0 <= k < |infs| && 0 < i < |rings[k]| && rings[k][i] == s && infs[k].name == name && s.addr == addr
          && (forall j :: 0 < j < i ==> rings[k][j].addr != addr)
          && (forall a, j :: 0 <= a < k && 0 < j < |rings[a]| ==> infs[a].name != name || rings[a][j].addr != addr)
    }

    lemma {:induction false} FoundIsFirst(name: string, addr: nat, s: SrvNode?, k: nat, n: nat)
      requires Valid() && infs != [] && k <= |infs| && (s == null <==> k == |infs|)
      requires forall a :: 0 <= a < |infs| ==> |rings[a]| > 1
      requires k < |infs| ==> n < |rings[k]| && s == rings[k][n] && IsSender(k, n, name, addr)
      requires k < |infs| ==> forall i :: 0 <= i < n ==> !IsSender(k, i, name, addr)
      requires forall a, i :: 0 <= a < k && 0 <= i < |rings[a]| ==> !IsSender(a, i, name, addr)
      ensures FirstFrom(name, addr, s)
    {
      hide InfNode.Valid;
      forall a, j | 0 <= a < k && 0 < j < |rings[a]| ensures infs[a].name != name || rings[a][j].addr != addr {
        assert !IsSender(a, j, name, addr);
      }
      if s != null {
        assert 0 < n && infs[k].name == name && s.addr == addr;
        forall j | 0 < j < n ensures rings[k][j].addr != addr {
          assert !IsSender(k, j, name, addr);
        }
      }
    }

    /** A server behind the head of one of the lists. */
    ghost predicate IsServer(s: SrvNode) {
      exists k, i :: 0 <= k < |infs| && k < |rings| && 0 < i < |rings[k]| && rings[k][i] == s
    }

    /** The servers noted in a srv_list are servers of the interfaces. */
    ghost predicate Known(srvList: seq<SrvNode?>) {
      forall c :: 0 <= c < |srvList| && srvList[c] != null ==> IsServer(srvList[c])
    }

    lemma {:induction false} NotedAreServers(before: seq<Face>, used: seq<nat>, srvList: seq<SrvNode?>)
      requires Valid() && AllSent(before, Faces(), used, srvList)
      ensures Known(srvList)
    {
      hide SentOn;
      forall c | 0 <= c < |srvList| && srvList[c] != null ensures IsServer(srvList[c]) {
        var k := used[c];
        assert Good(k) && srvList[c] == rings[k][infs[k].cur];
      }
    }

    /** The revived servers count as alive and owe nothing; the others are as they were. */
    ghost predicate RevivedAs(k: nat, before: seq<Fields>, alive: set<SrvNode>)
      requires k < |rings|
      reads rings[k]
    {
      && |before| == |rings[k]|
      && forall i :: 0 <= i < |rings[k]| ==>
           NodeFields(k)[i] == if rings[k][i] in alive then before[i].(inactive := 0, sendTime := 0) else before[i]
    }

    /** The server a reply came from, or one noted for the query, counts as alive. */
    method ReviveServer(s: SrvNode)
      requires Valid() && IsServer(s)
      modifies s`inactive, s`sendTime
      ensures Valid() && forall k :: 0 <= k < |infs| ==> RevivedAs(k, old(NodeFields(k)), {s})
    {
      hide InfNode.Linked, FirstActive, InfNode.Flags;
      ghost var j, n :| 0 <= j < |infs| && 0 < n < |rings[j]| && rings[j][n] == s;
      assert Good(j);
      infs[j].SamePlace(n);
      s.Revive();
      forall a | 0 <= a < |infs| ensures Good(a) {
        assert old(Good(a));
        if a != j {
          Apart(a, j);
          assert infs[a].ring == rings[a] && unchanged(infs[a]);
          assert forall i :: 0 <= i < |rings[a]| ==> unchanged(rings[a][i]);
        }
      }
    }

    /** Lines 594-604 of udp.c: all servers noted for a query count as alive. */
    method ReviveNoted(srvList: seq<SrvNode?>)
      requires Valid() && Known(srvList)
      modifies nodes`inactive, nodes`sendTime
      ensures Valid() && forall k :: 0 <= k < |infs| ==> RevivedAs(k, old(NodeFields(k)), Noted(srvList))
    {
      hide InfNode.Valid, NodeFields, IsServer;
      NothingNoted(srvList[..0]);
      for a := 0 to |srvList|
        modifies nodes`inactive, nodes`sendTime
        invariant Valid()
        invariant forall k :: 0 <= k < |infs| ==> RevivedAs(k, old(NodeFields(k)), Noted(srvList[..a]))
      {
        NotedSnoc(srvList, a);
        if srvList[a] != null {
          IsNode(srvList[a]);
          ReviveServer(srvList[a]);
        }
      }
      assert srvList[..|srvList|] == srvList;
    }

    lemma {:induction false} FoundIsServer(s: SrvNode, k: nat, n: nat)
      requires Valid() && k < |infs| && 0 < n < |rings[k]| && rings[k][n] == s
      ensures IsServer(s) && s in nodes
    {
    }

    lemma {:induction false} NobodyRevived()
      requires Valid()
      ensures |rings| == |infs| && forall k :: 0 <= k < |infs| ==> RevivedAs(k, NodeFields(k), {})
    {
    }

    /** Reviving some servers and then others revives both. */
    lemma {:induction false} RevivedBoth(k: nat, before: seq<Fields>, between: seq<Fields>, a: set<SrvNode>, b: set<SrvNode>)
      requires k < |rings| && |before| == |between| == |rings[k]| && RevivedAs(k, between, b)
      requires forall i :: 0 <= i < |before| ==>
        between[i] == if rings[k][i] in a then before[i].(inactive := 0, sendTime := 0) else before[i]
      ensures RevivedAs(k, before, a + b)
    {
    }

    lemma {:induction false} IsNode(s: SrvNode)
      requires Valid() && IsServer(s)
      ensures s in nodes
    {
    }
  }

  /** The servers in a srv_list. */
  function Noted(srvList: seq<SrvNode?>): set<SrvNode> {
    set c | 0 <= c < |srvList| && srvList[c] != null :: srvList[c] as SrvNode
  }

  lemma {:induction false} NothingNoted(srvList: seq<SrvNode?>)
    requires srvList == []
    ensures Noted(srvList) == {}
  {
  }

  lemma {:induction false} NotedSnoc(srvList: seq<SrvNode?>, a: nat)
    requires a < |srvList|
    ensures Noted(srvList[..a + 1]) == Noted(srvList[..a]) + if srvList[a] == null then {} else {srvList[a] as SrvNode}
  {
    var more, less := srvList[..a + 1], srvList[..a];
    assert more == less + [srvList[a]];
    assert forall c :: 0 <= c < a ==> more[c] == less[c];
    assert more[a] == srvList[a];
  }
}
