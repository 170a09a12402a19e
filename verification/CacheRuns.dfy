/** The cache over whole runs: its time invariants, where its answers come from, and that it is a
    plain list of stored replies. */
module CacheRuns {
  import opened Octets
  import opened Records
  import opened ReplyFormat
  import opened CacheModel

  // ---------------------------------------------------------------------------
  // Watermarks.
  // ---------------------------------------------------------------------------

  /** The argument of the cache option: nothing, off, one number, two numbers, or something else.
      The text starts with a digit, so only the second number can be negative. */
  datatype Param = Nothing | Off | One(high: nat) | Two(lowFirst: nat, highSecond: int) | Invalid

  datatype Watermarks = Watermarks(on: bool, low: int, high: int)

  /** cache_init */
  function CacheInit(p: Param): (w: Watermarks)
    ensures 0 <= w.low <= w.high
    ensures p.Two? && 0 <= p.lowFirst <= p.highSecond ==> w == Watermarks(true, p.lowFirst, p.highSecond)
    ensures p.One? ==> w.high == p.high
    ensures w.on <==> !p.Off?
  {
    var asked := match p
      case One(high) => (high * 75 / 100, high)
      case Two(low, high) => (low, high)
      case _ => (CACHE_LOWWATER, CACHE_HIGHWATER);
    if p == Off then Watermarks(false, asked.0, asked.1)
    else if asked.1 < 0 then Watermarks(true, CACHE_LOWWATER, CACHE_HIGHWATER)
    else if asked.0 > asked.1 then Watermarks(true, asked.1 * 75 / 100, asked.1)
    else Watermarks(true, asked.0, asked.1)
  }

  /** What the options come to: nothing, one number, two numbers. */
  lemma {:induction false} WatermarksAre(n: nat, low: nat, high: int)
    ensures CacheInit(Nothing) == CacheInit(Invalid) == Watermarks(true, 800, 1000)
    ensures CacheInit(Off) == Watermarks(false, 800, 1000) && CacheInit(One(n)) == Watermarks(true, n * 3 / 4, n)
    ensures CacheInit(Two(low, high)) ==
      Watermarks(true, if high < 0 then 800 else if low > high then high * 3 / 4 else low, if high < 0 then 1000 else high)
  {
  }

  // ---------------------------------------------------------------------------
  // One sweep.
  // ---------------------------------------------------------------------------

  /** After a sweep nothing overdue is left and the cache is no larger than the high watermark. */
  lemma {:induction false} SweepLeavesNothingOverdue(recs: seq<Rec>, now: int, low: nat, high: nat, qsort: seq<int> -> seq<nat>)
    requires low <= high && Sorts(qsort)
    ensures |Sweep(recs, now, low, high, qsort)| <= high
    ensures forall r :: r in Sweep(recs, now, low, high, qsort) ==>
      r in recs && now <= r.expires && r.created <= now <= r.created + 21600
  {
    forall r ensures Overdue(r, now) <==> !(now <= r.expires && r.created <= now <= r.created + 21600) {
    }
    hide Overdue;
    var kept := Kept(recs, now);
    var keys := LastUsed(kept);
    KeptAreInOrder(recs, now);
    if |kept| > high {
      assert SortsDown(keys, qsort(keys));
      EvictionTakesTheRecentlyUsed(kept, low, qsort(keys));
      forall r | r in Evict(kept, low, qsort(keys)) ensures r in kept {
      }
    }
  }

  /** The comment above expire_oldest says that the oldest entries go.  A record that is left was
      then used no earlier than any that went. */
  ghost predicate OldestGo(recs: seq<Rec>, low: nat, order: seq<nat>)
    requires low <= |recs| && |order| == |recs|
  {
    var gone := Elements(order[..|recs| - low]);
    forall g, k: nat :: g in gone && g < |recs| && k < |recs| && k !in gone ==> recs[g].lastused <= recs[k].lastused
  }

  /** That is what happens exactly if nothing is left or all records were last used at the same time. */
  lemma {:induction false} OldestGoIff(recs: seq<Rec>, low: nat, order: seq<nat>)
    requires low < |recs| && SortsDown(LastUsed(recs), order)
    ensures OldestGo(recs, low, order) <==>
      low == 0 || forall i :: 0 <= i < |recs| ==> recs[i].lastused == recs[0].lastused
  {
    var gone := Elements(order[..|recs| - low]);
    var idx := Left(|recs|, gone);
    EvictionTakesTheRecentlyUsed(recs, low, order);
    forall k: nat | k < |recs| && low == 0 ensures k in gone {
      assert idx == [];
    }
    if OldestGo(recs, low, order) && low > 0 {
      var g, k := order[0], idx[0];
      assert order[..|recs| - low][0] == g && g in gone;
      assert k in idx && k !in gone;
      forall i | 0 <= i < |recs| ensures recs[i].lastused == recs[k].lastused {
        assert i in gone ==> recs[i].lastused == recs[k].lastused;
        assert recs[g].lastused == recs[k].lastused;
        assert i !in gone ==> recs[i].lastused == recs[g].lastused;
      }
    }
  }

  /** For instance: the record that has not been used for longest stays. */
  lemma {:induction false} LeastRecentlyUsedStays(a: Rec, b: Rec, order: seq<nat>)
    requires a.lastused < b.lastused && SortsDown(LastUsed([a, b]), order)
    ensures Evict([a, b], 1, order) == [a]
  {
    var recs := [a, b];
    EvictionTakesTheRecentlyUsed(recs, 1, order);
    var gone := Elements(order[..1]);
    assert order[..1] == [order[0]];
    assert LastUsed(recs)[order[0]] >= LastUsed(recs)[order[1]];
    assert order[0] == 1;
    var idx := Left(2, gone);
    assert 0 in idx;
  }

  // ---------------------------------------------------------------------------
  // Runs.
  // ---------------------------------------------------------------------------

  datatype State = State(recs: seq<Rec>, lastExpire: int)

  /** A reply is handed to the cache, a query looks for one, or the sweep is called. */
  datatype Event =
    | Store(question: Option<ParsedQuery>, packet: seq<byte>, now: int)
    | Lookup(asked: Option<ParsedQuery>, now: int)
    | Expire(now: int)

  /** Why a sweep is put off. */
  function Since(lastExpire: int, now: int): int {
    if lastExpire == 0 then now else lastExpire
  }

  /** The record a lookup answers from, or the length of the list. */
  function Hit(recs: seq<Rec>, asked: Option<ParsedQuery>): (k: nat)
    ensures k <= |recs|
  {
    if Askable(asked) then FirstMatch(recs, asked.value.question) else |recs|
  }

  ghost predicate Possible(e: Event) {
    e.now > 0 && (e.Store? && Storable(e.question) ==> 12 <= |e.packet|)
  }

  function AfterStore(s: State, q: Option<ParsedQuery>, packet: seq<byte>, now: int): State
    requires Storable(q) ==> 12 <= |packet|
  {
    if Storable(q) then s.(recs := s.recs + [NewRec(q.value.question, packet, now)]) else s
  }

  function AfterLookup(s: State, q: Option<ParsedQuery>, now: int): State {
    var k := Hit(s.recs, q);
    if k < |s.recs| then s.(recs := s.recs[k := Touch(s.recs[k], now)]) else s
  }

  function AfterExpire(s: State, now: int, low: nat, high: nat, qsort: seq<int> -> seq<nat>): State
    requires low <= high && Sorts(qsort)
  {
    if now - Since(s.lastExpire, now) < CACHE_MINCYCLE then s.(lastExpire := Since(s.lastExpire, now))
    else State(Sweep(s.recs, now, low, high, qsort), now)
  }

  function Step(s: State, e: Event, w: Watermarks, qsort: seq<int> -> seq<nat>): State
    requires 0 <= w.low <= w.high && Sorts(qsort) && Possible(e)
  {
    match e
    case Store(q, packet, now) => AfterStore(s, q, packet, now)
    case Lookup(q, now) => AfterLookup(s, q, now)
    case Expire(now) => AfterExpire(s, now, w.low, w.high, qsort)
  }

  function Run(es: seq<Event>, w: Watermarks, qsort: seq<int> -> seq<nat>): State
    requires 0 <= w.low <= w.high && Sorts(qsort) && forall i :: 0 <= i < |es| ==> Possible(es[i])
  {
    if es == [] then State([], 0)
    else Step(Run(es[..|es| - 1], w, qsort), es[|es| - 1], w, qsort)
  }

  /** Time does not run backwards. */
  ghost predicate Forward(es: seq<Event>) {
    forall i, j :: 0 <= i < j < |es| ==> es[i].now <= es[j].now
  }

  /** A record's times at a moment: if its packet counts answers (octets 6 and 7, a signed number) it
      lives an hour from its last use, otherwise five minutes from when it was stored. */
  predicate TimesOk(r: Rec, now: int) {
    && 12 <= |r.packet| && 0 < r.created <= r.lastused <= now && r.answers == AnswerCount(r.packet)
    && if 0 < ReadU16(r.packet, 6) < 0x8000 then r.expires == r.lastused + 3600
       else r.lastused == r.created && r.expires == r.created + 300
  }

  /** The record is the reply that was stored by an event at its time of creation. */
  ghost predicate ComesFrom(r: Rec, e: Event) {
    && e.Store? && Storable(e.question) && 12 <= |e.packet| && r.created == e.now
    && Matches(r, e.question.value.question) && r.packet == e.packet && r.answers == AnswerCount(e.packet)
  }

  /** Sweeps that run are at least five minutes apart, and leave only records in time, no more than the
      high watermark. */
  lemma {:induction false} ExpireIs(s: State, now: int, low: nat, high: nat, qsort: seq<int> -> seq<nat>)
    requires low <= high && Sorts(qsort)
    ensures var t := AfterExpire(s, now, low, high, qsort);
      if s.lastExpire == 0 || now - s.lastExpire < 300 then
        t.recs == s.recs && t.lastExpire == if s.lastExpire == 0 then now else s.lastExpire
      else
        && t.lastExpire == now && |t.recs| <= high
        && forall r :: r in t.recs ==> r in s.recs && now <= r.expires && r.created <= now <= r.created + 21600
  {
    hide Sweep, Sorts;
    SweepLeavesNothingOverdue(s.recs, now, low, high, qsort);
  }

  lemma {:induction false} SweepTakesFrom(s: State, e: Event, w: Watermarks, qsort: seq<int> -> seq<nat>)
    requires 0 <= w.low <= w.high && Sorts(qsort) && Possible(e) && e.Expire?
    ensures forall r :: r in Step(s, e, w, qsort).recs ==> r in s.recs
  {
    hide Sweep, Sorts;
    if e.now - Since(s.lastExpire, e.now) >= CACHE_MINCYCLE {
      SweepLeavesNothingOverdue(s.recs, e.now, w.low, w.high, qsort);
    }
  }

  lemma {:induction false} StepKeepsTimes(s: State, e: Event, w: Watermarks, qsort: seq<int> -> seq<nat>)
    requires 0 <= w.low <= w.high && Sorts(qsort) && Possible(e)
    requires forall r :: r in s.recs ==> TimesOk(r, e.now)
    ensures forall r :: r in Step(s, e, w, qsort).recs ==> TimesOk(r, e.now)
  {
    hide Sorts, Sweep;
    if e.Expire? {
      SweepTakesFrom(s, e, w, qsort);
    } else {
      assert forall i :: 0 <= i < |s.recs| ==> s.recs[i] in s.recs;
    }
  }

  /** In every run every record keeps its times: they are decided by the answers its packet counts. */
  lemma {:induction false} RunKeepsTimes(es: seq<Event>, w: Watermarks, qsort: seq<int> -> seq<nat>, now: int)
    requires 0 <= w.low <= w.high && Sorts(qsort) && Forward(es) && (forall i :: 0 <= i < |es| ==> Possible(es[i]))
    requires es != [] ==> es[|es| - 1].now <= now
    ensures forall r :: r in Run(es, w, qsort).recs ==>
      && 12 <= |r.packet| && 0 < r.created <= r.lastused <= now && r.answers == AnswerCount(r.packet)
      && if 0 < ReadU16(r.packet, 6) < 0x8000 then r.expires == r.lastused + 3600
         else r.lastused == r.created && r.expires == r.created + 300
  {
    hide Sorts, Step, ReadU16, AnswerCount;
    if es != [] {
      var front, e := es[..|es| - 1], es[|es| - 1];
      RunKeepsTimes(front, w, qsort, e.now);
      StepKeepsTimes(Run(front, w, qsort), e, w, qsort);
    }
  }

  /** In every run a hit renews a record whose packet counts answers, and changes no other one. */
  lemma {:induction false} HitRenews(es: seq<Event>, w: Watermarks, qsort: seq<int> -> seq<nat>,
                                     asked: Option<ParsedQuery>, now: int)
    requires 0 <= w.low <= w.high && Sorts(qsort) && Forward(es) && (forall i :: 0 <= i < |es| ==> Possible(es[i]))
    requires now > 0 && (es != [] ==> es[|es| - 1].now <= now)
    ensures var s, k := Run(es, w, qsort).recs, Hit(Run(es, w, qsort).recs, asked);
      var t := Step(Run(es, w, qsort), Lookup(asked, now), w, qsort).recs;
      && |t| == |s| && (forall i :: 0 <= i < |s| && i != k ==> t[i] == s[i])
      && (k < |s| ==>
           && 12 <= |s[k].packet|
           && t[k] == if 0 < ReadU16(s[k].packet, 6) < 0x8000 then s[k].(lastused := now, expires := now + 3600) else s[k])
  {
    hide Sorts, Run, Hit, ReadU16;
    RunKeepsTimes(es, w, qsort, now);
    var s, k := Run(es, w, qsort).recs, Hit(Run(es, w, qsort).recs, asked);
    if k < |s| {
      assert s[k] in s;
      CountDecides(s[k].packet);
    }
  }

  /** The cache and the reader of the sections take the same packets for answers. */
  lemma {:induction false} CountDecides(packet: seq<byte>)
    requires 12 <= |packet|
    ensures AnswerCount(packet) > 0 <==> 0 < ReadU16(packet, 6) < 0x8000
    ensures Count(packet, 6) > 0 <==> 0 < ReadU16(packet, 6) < 0x8000
  {
  }

  /** An assembled reply is kept for an hour if it has answers, else for five minutes. */
  lemma {:induction false} AssembledLife(q: Question, r: Reply, packet: seq<byte>, now: int)
    requires |r.answers| < 0x8000 && |r.authority| < 0x8000 && |packet| == |ReplyOctets(r)| && packet[2..] == ReplyOctets(r)[2..]
    ensures NewRec(q, packet, now).expires == now + if r.answers != [] then 3600 else 300
  {
    hide ReadU16, AnswerCount, CountOctets, QuestionOctets, AnswersOctets, AuthorityOctets, AuthorityStart;
    CountDecides(packet);
    assert packet[2..][..10] == CountOctets(r);
    HeaderFields(packet, r);
  }

  /** What storing comes to: a record with the packet and the times of now, if the packet is a reply
      and not for the root. */
  lemma {:induction false} StoreIs(s: State, p: Option<ParsedQuery>, packet: seq<byte>, now: int)
    requires 12 <= |packet|
    ensures var t, n := AfterStore(s, p, packet, now), |s.recs|;
      if p.Some? && p.value.flags / 0x8000 % 2 == 1 && p.value.question.name != [] then
        && |t.recs| == n + 1 && t.recs[..n] == s.recs
        && var r, q := t.recs[n], p.value.question;
           && r.name == q.name && r.qtype == q.qtype && r.qclass == q.qclass && r.packet == packet
           && r.created == r.lastused == now && r.expires == now + if 0 < ReadU16(packet, 6) < 0x8000 then 3600 else 300
      else t == s
  {
    hide ReadU16, AnswerCount;
    CountDecides(packet);
  }

  /** What a lookup answers from: the earliest record for a question of class IN with the same type
      and class and a name equal up to case, if the packet is a query and not for the root. */
  lemma {:induction false} HitIs(recs: seq<Rec>, asked: Option<ParsedQuery>)
    ensures var k := Hit(recs, asked);
      if asked.Some? && asked.value.flags / 0x8000 % 2 == 0 && asked.value.question.name != []
         && asked.value.question.qclass == 1 then
        var q := asked.value.question;
        && (k < |recs| ==> recs[k].qtype == q.qtype && recs[k].qclass == 1 && Lower(recs[k].name) == Lower(q.name))
        && forall i :: 0 <= i < k ==>
             !(recs[i].qtype == q.qtype && recs[i].qclass == 1 && Lower(recs[i].name) == Lower(q.name))
      else k == |recs|
  {
    hide Lower;
  }

  /** In every run every record is a reply that was stored. */
  lemma {:induction false} AnswersWereStored(es: seq<Event>, w: Watermarks, qsort: seq<int> -> seq<nat>, k: nat)
    returns (i: nat)
    requires 0 <= w.low <= w.high && Sorts(qsort) && (forall i :: 0 <= i < |es| ==> Possible(es[i]))
    requires k < |Run(es, w, qsort).recs|
    ensures i < |es| && ComesFrom(Run(es, w, qsort).recs[k], es[i])
  {
    hide Sorts, Sweep;
    var front, e := es[..|es| - 1], es[|es| - 1];
    var s, t := Run(front, w, qsort), Run(es, w, qsort);
    if e.Expire? {
      SweepTakesFrom(s, e, w, qsort);
      assert t.recs[k] in s.recs;
      var j :| 0 <= j < |s.recs| && s.recs[j] == t.recs[k];
      i := AnswersWereStored(front, w, qsort, j);
    } else if k < |s.recs| {
      i := AnswersWereStored(front, w, qsort, k);
    } else {
      i := |es| - 1;
    }
  }

  // ---------------------------------------------------------------------------
  // The cache as a plain list of stored replies.
  // ---------------------------------------------------------------------------

  datatype StoredReply = StoredReply(name: seq<byte>, qtype: nat, qclass: nat, packet: seq<byte>)

  function Plain(recs: seq<Rec>): (p: seq<StoredReply>)
    ensures |p| == |recs|
    ensures forall k :: 0 <= k < |p| ==> p[k] == StoredReply(recs[k].name, recs[k].qtype, recs[k].qclass, recs[k].packet)
  {
    seq(|recs|, k requires 0 <= k < |recs| => StoredReply(recs[k].name, recs[k].qtype, recs[k].qclass, recs[k].packet))
  }

  function NewReply(q: Question, packet: seq<byte>): StoredReply {
    StoredReply(q.name, q.qtype, q.qclass, packet)
  }

  predicate Fits(r: StoredReply, q: Question) {
    Lower(q.name) == Lower(r.name) && q.qtype == r.qtype && q.qclass == r.qclass
  }

  /** Storing appends to the plain list, looking up leaves it alone, and expiry takes some replies
      out of it. */
  lemma {:induction false} StepRefinesPlainList(s: State, e: Event, w: Watermarks, qsort: seq<int> -> seq<nat>)
    returns (idx: seq<nat>)
    requires 0 <= w.low <= w.high && Sorts(qsort) && Possible(e)
    ensures var before, after := Plain(s.recs), Plain(Step(s, e, w, qsort).recs);
      match e
      case Store(q, packet, now) =>
        after == before + if Storable(q) then [NewReply(q.value.question, packet)] else []
      case Lookup(q, now) => after == before
      case Expire(now) => Increasing(idx, |before|) && after == Pick(before, idx)
  {
    idx := [];
    var t := Step(s, e, w, qsort);
    match e
    case Store(q, packet, now) =>
    case Lookup(q, now) =>
    case Expire(now) =>
      if now - Since(s.lastExpire, now) < CACHE_MINCYCLE {
        idx := AllOf(s.recs);
      } else {
        idx := SweepIsPick(s.recs, now, w.low, w.high, qsort);
      }
      assert Plain(Pick(s.recs, idx)) == Pick(Plain(s.recs), idx);
  }

  lemma {:induction false} AllOf(recs: seq<Rec>) returns (idx: seq<nat>)
    ensures Increasing(idx, |recs|) && recs == Pick(recs, idx)
  {
    idx := seq(|recs|, i => i);
  }

  lemma {:induction false} PickTwice<T>(s: seq<T>, first: seq<nat>, second: seq<nat>)
    requires Increasing(first, |s|) && Increasing(second, |first|)
    ensures Increasing(Pick(first, second), |s|)
    ensures Pick(Pick(s, first), second) == Pick(s, Pick(first, second))
  {
    var idx := Pick(first, second);
    forall i, j | 0 <= i < j < |idx| ensures idx[i] < idx[j] {
      assert second[i] < second[j];
    }
  }

  lemma {:induction false} SweepIsPick(recs: seq<Rec>, now: int, low: nat, high: nat, qsort: seq<int> -> seq<nat>)
    returns (idx: seq<nat>)
    requires low <= high && Sorts(qsort)
    ensures Increasing(idx, |recs|) && Sweep(recs, now, low, high, qsort) == Pick(recs, idx)
  {
    hide OverdueAt, Left;
    var kept := Kept(recs, now);
    var order := qsort(LastUsed(kept));
    idx := Left(|recs|, OverdueAt(recs, now));
    KeptAreInOrder(recs, now);
    assert SortsDown(LastUsed(kept), order);
    if |kept| > high {
      var second := Left(|kept|, Elements(order[..|kept| - low]));
      LeftIsRest(|kept|, Elements(order[..|kept| - low]));
      PickTwice(recs, idx, second);
      idx := Pick(idx, second);
    }
  }

  /** A lookup finds the earliest stored reply that fits. */
  lemma {:induction false} LookupFindsTheEarliest(recs: seq<Rec>, asked: ParsedQuery)
    requires Askable(Some(asked))
    ensures var k, p := Hit(recs, Some(asked)), Plain(recs);
      && (k < |p| ==> Fits(p[k], asked.question)) && forall i :: 0 <= i < k ==> !Fits(p[i], asked.question)
  {
  }

  /** So a stored reply never replaces an earlier one for the same question: it is found exactly
      if none was there. */
  lemma {:induction false} EarlierReplyWins(s: State, w: Watermarks, qsort: seq<int> -> seq<nat>,
                                            q: ParsedQuery, packet: seq<byte>, asked: ParsedQuery, now: int)
    requires 0 <= w.low <= w.high && Sorts(qsort) && now > 0 && 12 <= |packet|
    requires Storable(Some(q)) && Askable(Some(asked))
    ensures var t := Step(s, Store(Some(q), packet, now), w, qsort);
      var k := Hit(s.recs, Some(asked));
      Hit(t.recs, Some(asked)) == if k < |s.recs| || Fits(NewReply(q.question, packet), asked.question) then k else k + 1
  {
    var r := NewRec(q.question, packet, now);
    FirstMatchAppend(s.recs, r, asked.question);
  }

  lemma {:induction false} FirstMatchAppend(recs: seq<Rec>, r: Rec, q: Question)
    ensures FirstMatch(recs + [r], q) ==
      if FirstMatch(recs, q) < |recs| || Matches(r, q) then FirstMatch(recs, q) else |recs| + 1
  {
    hide Matches;
    var a, b := FirstMatch(recs, q), FirstMatch(recs + [r], q);
    assert (recs + [r])[|recs|] == r;
    assert forall i :: 0 <= i < |recs| ==> (recs + [r])[i] == recs[i];
  }
}
