/** cache.c as it works in place: a doubly linked list of replies with a hash code in front of the
    name comparison.  Every method is tied to CacheModel and to a step of CacheRuns. */
module Cache {
  import opened Octets
  import opened Lib
  import opened NameWalk
  import opened Records
  import opened CacheModel
  import opened CacheRuns

  /** cache_t */
  class Entry {
    const name: seq<byte>
    const code: nat
    const qtype: nat
    const qclass: nat
    const positive: int
    const packet: seq<byte>
    var created: int
    var lastused: int
    var expires: int
    var next: Entry?
    var prev: Entry?

    ghost function Value(): Rec
      reads this`created, this`lastused, this`expires
    {
      Rec(name, qtype, qclass, positive, created, lastused, expires, packet)
    }

    /** create_cx */
    constructor (q: Question, packet: seq<byte>, now: int)
      requires 12 <= |packet|
      ensures code == StringCode(q.name) && Value() == NewRec(q, packet, now).(created := 0, expires := 0)
      ensures next == null && prev == null
    {
      name, qtype, qclass, this.packet := q.name, q.qtype, q.qclass, packet;
      var c := GetStringCode(q.name);
      code := c;
      positive := AnswerCount(packet);
      created, lastused, expires := 0, now, 0;
      next, prev := null, null;
    }
  }

  class Cache {
    const on: bool
    const low: nat
    const high: nat
    var cachelist: Entry?
    var lastcache: Entry?
    var lastExpire: int
    ghost var list: seq<Entry>
    ghost var recs: seq<Rec>

    ghost predicate Linked()
      reads this`list, this`cachelist, this`lastcache, list`next, list`prev
    {
      && (forall i, j :: 0 <= i < j < |list| ==> list[i] != list[j])
      && cachelist == (if list == [] then null else list[0])
      && lastcache == (if list == [] then null else list[|list| - 1])
      && (forall i {:trigger list[i].next} :: 0 <= i < |list| ==> list[i].next == if i + 1 < |list| then list[i + 1] else null)
      && (forall i {:trigger list[i].prev} :: 0 <= i < |list| ==> list[i].prev == if i > 0 then list[i - 1] else null)
    }

    /** The records in the list; each carries the hash code of its name and a whole header. */
    ghost predicate Holding()
      reads this`list, this`recs, list`created, list`lastused, list`expires
    {
      && |recs| == |list|
      && (forall i :: 0 <= i < |list| ==> list[i].Value() == recs[i])
      && (forall i :: 0 <= i < |list| ==> list[i].code == StringCode(recs[i].name) && 12 <= |recs[i].packet|)
    }

    ghost predicate Valid()
      reads this, list
    {
      Linked() && Holding() && low <= high
    }

    ghost function Abs(): State
      reads this`recs, this`lastExpire
    {
      State(recs, lastExpire)
    }

    ghost function Marks(): Watermarks
    {
      Watermarks(on, low, high)
    }

    /** cache_init */
    constructor (p: Param)
      ensures Valid() && Abs() == State([], 0) && Marks() == CacheInit(p)
    {
      var w := CacheInit(p);
      on, low, high := w.on, w.low, w.high;
      cachelist, lastcache, lastExpire := null, null, 0;
      list, recs := [], [];
    }

    lemma {:induction false} Neighbours(i: nat)
      requires Linked() && i < |list|
      ensures list[i].next == if i + 1 < |list| then list[i + 1] else null
      ensures list[i].prev == if i > 0 then list[i - 1] else null
    {
    }

    /** The links of append_cx. */
    method Link(cx: Entry)
      requires Linked() && cx !in list && cx.next == null && cx.prev == null
      modifies this`cachelist, this`lastcache, this`list, list`next, cx`prev
      ensures Linked() && list == old(list) + [cx]
    {
      ghost var n := |list|;
      if n > 0 {
        Neighbours(n - 1);
      }
      if lastcache == null {
        cachelist := cx;
        lastcache := cx;
      } else {
        lastcache.next := cx;
        cx.prev := lastcache;
        lastcache := cx;
      }
      list := list + [cx];
      forall i | 0 <= i < |list|
        ensures list[i].next == if i + 1 < |list| then list[i + 1] else null
        ensures list[i].prev == if i > 0 then list[i - 1] else null
      {
        if i < n {
          assert list[i] == old(list[i]);
        }
      }
    }

    /** append_cx */
    method AppendCx(cx: Entry, now: int)
      requires Valid() && cx !in list && cx.next == null && cx.prev == null
      requires cx.code == StringCode(cx.name) && 12 <= |cx.packet|
      modifies this`cachelist, this`lastcache, this`list, this`recs, list`next, cx`prev, cx`created
      ensures Valid() && list == old(list) + [cx] && recs == old(recs) + [old(cx.Value()).(created := now)]
      ensures cx.Value() == recs[|recs| - 1]
    {
      hide Linked;
      Link(cx);
      cx.created := now;
      recs := recs + [cx.Value()];
    }

    /** The links of remove_cx. */
    method Unlink(cx: Entry, ghost k: nat)
      requires Linked() && k < |list| && cx == list[k]
      modifies this`cachelist, this`lastcache, this`list, list`next, list`prev
      ensures Linked() && list == old(list[..k] + list[k + 1..])
      ensures cx.next == old(cx.next)
    {
      ghost var l := list;
      Neighbours(k);
      if cx.next != null {
        cx.next.prev := cx.prev;
      } else {
        lastcache := cx.prev;
      }
      if cx.prev != null {
        cx.prev.next := cx.next;
      } else {
        cachelist := cx.next;
      }
      list := l[..k] + l[k + 1..];
      forall i | 0 <= i < |list|
        ensures list[i].next == if i + 1 < |list| then list[i + 1] else null
        ensures list[i].prev == if i > 0 then list[i - 1] else null
      {
        ghost var j := if i < k then i else i + 1;
        assert list[i] == l[j];
      }
    }

    /** remove_cx for the k-th entry. */
    method RemoveCx(cx: Entry, ghost k: nat)
      requires Valid() && k < |list| && cx == list[k]
      modifies this`cachelist, this`lastcache, this`list, this`recs, list`next, list`prev
      ensures Valid() && list == old(list[..k] + list[k + 1..]) && recs == old(recs[..k] + recs[k + 1..])
      ensures cx.next == old(cx.next)
    {
      hide Linked;
      ghost var l, r := list, recs;
      Unlink(cx, k);
      recs := r[..k] + r[k + 1..];
      forall i | 0 <= i < |list|
        ensures list[i].Value() == recs[i] && list[i].code == StringCode(recs[i].name) && 12 <= |recs[i].packet|
      {
        ghost var j := if i < k then i else i + 1;
        assert list[i] == l[j] && recs[i] == r[j];
      }
    }

    /** cache_dnspacket */
    method CacheDnspacket(packet: seq<byte>, rr: RR, now: int)
      requires Valid() && now > 0 && DATA_BEGIN <= |packet| && rr.Valid()
      modifies this, list, rr, rr.mem
      ensures Valid() && Abs() == if on then AfterStore(old(Abs()), Parsed(packet, old(rr.Name())), packet, now) else old(Abs())
      ensures var p, n := Parsed(packet, old(rr.Name())), old(|recs|);
        if on && p.Some? && p.value.flags / 0x8000 % 2 == 1 && p.value.question.name != [] then
          && |recs| == n + 1 && recs[..n] == old(recs)
          && var r, q := recs[n], p.value.question;
             && r.name == q.name && r.qtype == q.qtype && r.qclass == q.qclass && r.packet == packet
             && r.created == r.lastused == now && r.expires == now + if 0 < ReadU16(packet, 6) < 0x8000 then 3600 else 300
        else recs == old(recs)
    {
      hide Linked, Parsed, RR.Name, RR.Flags, ReadU16;
      StoreIs(Abs(), Parsed(packet, rr.Name()), packet, now);
      if !on {
        return;
      }
      var rc := ParseQuery(packet, rr);
      if rc != 0 || !IsReply(rr.Flags()) || rr.Name() == [] {
        return;
      }
      StoreReply(Question(rr.Name(), rr.rtype, rr.rclass), packet, now);
    }

    /** A new entry at the end of the list. */
    method StoreReply(q: Question, packet: seq<byte>, now: int)
      requires Valid() && DATA_BEGIN <= |packet|
      modifies this, list
      ensures Valid() && recs == old(recs) + [NewRec(q, packet, now)] && lastExpire == old(lastExpire)
    {
      hide Linked;
      var cx := new Entry(q, packet, now);
      AppendCx(cx, now);
      SetTimes(cx, |list| - 1, now, now + Life(AnswerCount(packet)));
    }

    method SetTimes(cx: Entry, ghost k: nat, lastused: int, expires: int)
      requires Valid() && k < |list| && cx == list[k]
      modifies this`recs, cx`lastused, cx`expires
      ensures Valid() && recs == old(recs)[k := old(recs[k]).(lastused := lastused, expires := expires)]
    {
      hide Linked;
      SameEntries(k);
      cx.lastused := lastused;
      cx.expires := expires;
      recs := recs[k := recs[k].(lastused := lastused, expires := expires)];
    }

    lemma {:induction false} SameEntries(k: nat)
      requires Linked() && k < |list|
      ensures forall i :: 0 <= i < |list| && i != k ==> list[i] != list[k]
    {
    }

    /** The search loop of cache_lookup: the hash code is compared before the name. */
    method Search(q: Question) returns (cx: Entry?, ghost k: nat)
      requires Valid()
      ensures k == FirstMatch(recs, q) && |list| == |recs|
      ensures cx == var i := FirstMatch(recs, q); if i < |list| then list[i] else null
    {
      hide Linked, Matches, StringCode, Lower;
      var code := GetStringCode(q.name);
      cx, k := cachelist, 0;
      AtStart();
      while cx != null
        invariant k <= |list| && cx == if k < |list| then list[k] else null
        invariant forall i :: 0 <= i < k ==> !Matches(recs[i], q)
        decreases |list| - k
      {
        MatchIffSameCode(cx.Value(), q);
        if cx.code == code && cx.qtype == q.qtype && cx.qclass == q.qclass && Lower(cx.name) == Lower(q.name) {
          return;
        }
        Neighbours(k);
        cx, k := cx.next, k + 1;
      }
    }

    lemma {:induction false} AtStart()
      requires Linked() && Holding()
      ensures |list| == |recs| && cachelist == if 0 < |list| then list[0] else null
    {
    }

    /** cache_lookup into the packet buffer, which has room for every cached reply: the length of
        the answer, which keeps the two ID octets of the query, or zero. */
    method CacheLookup(packet: array<byte>, len: nat, rr: RR, now: int) returns (n: nat)
      requires Valid() && now > 0 && DATA_BEGIN <= len <= packet.Length && rr.Valid() && rr.mem != packet
      requires forall i :: 0 <= i < |recs| ==> |recs[i].packet| <= packet.Length
      modifies packet, rr, rr.mem, this`recs, list`lastused, list`expires
      ensures Valid() &&
        Abs() == if on then AfterLookup(old(Abs()), old(Parsed(packet[..len], rr.Name())), now) else old(Abs())
      ensures var k := Hit(old(recs), old(Parsed(packet[..len], rr.Name())));
        if on && k < |old(recs)| then
          n == |old(recs)[k].packet| && packet[..n] == old(packet[..2]) + old(recs)[k].packet[2..] && packet[n..] == old(packet[n..])
        else n == 0 && packet[..] == old(packet[..])
    {
      hide Linked, Matches, Parsed, RR.Name, RR.Flags;
      if !on {
        return 0;
      }
      var rc := ParseQuery(packet[..len], rr);
      if rc != 0 || IsReply(rr.Flags()) || rr.Name() == [] || rr.rclass != CLASS_INET {
        return 0;
      }
      n := AnswerFrom(packet, Question(rr.Name(), rr.rtype, rr.rclass), now);
    }

    /** The search and what a hit does. */
    method AnswerFrom(packet: array<byte>, q: Question, now: int) returns (n: nat)
      requires Valid() && now > 0 && 2 <= packet.Length
      requires forall i :: 0 <= i < |recs| ==> |recs[i].packet| <= packet.Length
      modifies packet, this`recs, list`lastused, list`expires
      ensures Valid()
      ensures var k := FirstMatch(old(recs), q);
        recs == if k < |old(recs)| then old(recs)[k := Touch(old(recs)[k], now)] else old(recs)
      ensures var k := FirstMatch(old(recs), q);
        if k < |old(recs)| then
          n == |old(recs)[k].packet| && packet[..n] == old(packet[..2]) + old(recs)[k].packet[2..] && packet[n..] == old(packet[n..])
        else n == 0 && packet[..] == old(packet[..])
    {
      hide Linked, Matches;
      var cx, k := Search(q);
      if cx == null {
        return 0;
      }
      assert cx.Value() == recs[k] && cx == list[k];
      if cx.positive > 0 {
        SetTimes(cx, k, now, now + CACHE_TIME);
      }
      n := |cx.packet|;
      CopyReply(packet, cx.packet);
    }

    ghost predicate Within(nodes: seq<Entry>)
      reads this`list
    {
      forall i :: 0 <= i < |list| ==> list[i] in nodes
    }

    /** One turn of cache_expire's walk over the whole list. */
    method WalkOver(cx: Entry, now: int, ghost before: seq<Rec>, ghost i: nat, ghost k: nat,
                    ghost nodes: seq<Entry>)
      returns (next: Entry?, expired: bool)
      requires Valid() && k < |list| && cx == list[k] && Walked(before, now, i, recs, k) && Within(nodes)
      modifies this`cachelist, this`lastcache, this`list, this`recs, nodes`next, nodes`prev
      ensures Valid() && |list| == |recs| && i < |before|
      ensures Walked(before, now, i + 1, recs, if expired then k else k + 1)
      ensures next == var j := if expired then k else k + 1; if j < |list| then list[j] else null
      ensures Within(nodes)
    {
      hide Linked, Walked;
      next := cx.next;
      Neighbours(k);
      WalkStep(before, now, i, recs, k);
      expired := cx.expires < now || now < cx.created || now - cx.created > CACHE_MAXTIME;
      assert cx.Value() == recs[k];
      if expired {
        RemoveCx(cx, k);
      }
    }

    method Walk(now: int) returns (total: nat)
      requires Valid()
      modifies this`cachelist, this`lastcache, this`list, this`recs, list`next, list`prev
      ensures Valid() && recs == Kept(old(recs), now) && total == |recs|
      ensures Within(old(list))
    {
      hide Linked, Walked, Kept, Overdue, Holding;
      ghost var before, nodes := recs, list;
      ghost var i, k := 0, 0;
      var seen, gone := 0, 0;
      var cx := cachelist;
      AtStart();
      WalkStarts(before, now);
      while cx != null
        modifies this`cachelist, this`lastcache, this`list, this`recs, nodes`next, nodes`prev
        invariant Valid() && k <= i <= |before| && |list| == |recs| && cx == (if k < |list| then list[k] else null)
        invariant Walked(before, now, i, recs, k) && seen == i && gone == i - k
        invariant Within(nodes)
        decreases |before| - i
      {
        seen := seen + 1;
        var next, expired := WalkOver(cx, now, before, i, k, nodes);
        if expired {
          gone := gone + 1;
        } else {
          k := k + 1;
        }
        i := i + 1;
        cx := next;
      }
      WalkEnd(before, now, i, recs, k);
      total := seen - gone;
    }

    /** The loop of expire_oldest that collects all entries. */
    method Collect(total: nat) returns (cv: seq<Entry>)
      requires Valid() && total == |list|
      ensures cv == list
    {
      hide Holding;
      cv := [];
      var cx := cachelist;
      for i := 0 to total
        invariant cv == list[..i] && cx == if i < |list| then list[i] else null
      {
        Neighbours(i);
        cv := cv + [cx];
        cx := cx.next;
      }
    }

    /** expire_oldest; qsort is the order the library chooses for the given keys. */
    method ExpireOldest(total: nat, qsort: seq<int> -> seq<nat>)
      requires Valid() && total == |recs| && Sorts(qsort)
      modifies this`cachelist, this`lastcache, this`list, this`recs, list`next, list`prev
      ensures Valid()
      ensures recs == if total < low then old(recs) else Evict(old(recs), low, qsort(LastUsed(old(recs))))
    {
      hide Linked, Holding, Sorts, LastUsed, Evicted;
      if total < low {
        return;
      }
      SameSize();
      ghost var before, nodes := recs, list;
      var cv := Collect(total);
      var order := qsort(Keys(cv));
      SortedOrder(qsort, before);
      EvictStart(before, cv, order);
      for i := 0 to total - low
        modifies this`cachelist, this`lastcache, this`list, this`recs, nodes`next, nodes`prev
        invariant Valid() && Within(nodes) && Evicted(before, cv, order, i, recs, list)
      {
        ghost var k := EvictStep(before, cv, order, i, recs, list);
        RemoveCx(cv[order[i]], k);
      }
      EvictEnd(before, cv, order, total - low, recs, list);
    }

    function Keys(cv: seq<Entry>): (keys: seq<int>)
      reads cv
      ensures |keys| == |cv|
    {
      seq(|cv|, i requires 0 <= i < |cv| reads cv => cv[i].lastused)
    }

    lemma {:induction false} SameSize()
      requires Holding()
      ensures |recs| == |list| && Keys(list) == LastUsed(recs)
    {
      assert forall i :: 0 <= i < |list| ==> list[i].Value().lastused == recs[i].lastused;
    }

    /** cache_expire */
    method CacheExpire(now: int, qsort: seq<int> -> seq<nat>)
      requires Valid() && now > 0 && Sorts(qsort)
      modifies this`cachelist, this`lastcache, this`lastExpire, this`list, this`recs, list`next, list`prev
      ensures Valid() && Abs() == if on then AfterExpire(old(Abs()), now, low, high, qsort) else old(Abs())
      ensures
        if !on || old(lastExpire) == 0 || now - old(lastExpire) < 300 then recs == old(recs)
        else
          && lastExpire == now && |recs| <= high
          && forall r :: r in recs ==> r in old(recs) && now <= r.expires && r.created <= now <= r.created + 21600
    {
      hide Linked, Holding, Sorts, Kept, Evict, LastUsed;
      ExpireIs(Abs(), now, low, high, qsort);
      if !on {
        return;
      }
      if lastExpire == 0 {
        lastExpire := now;
      }
      if now - lastExpire < CACHE_MINCYCLE {
        return;
      }
      ghost var nodes := list;
      var total := Walk(now);
      if total > high {
        Room(nodes);
        ExpireOldest(total, qsort);
      }
      lastExpire := now;
    }

    lemma {:induction false} Room(nodes: seq<Entry>)
      requires Within(nodes)
      ensures forall i :: 0 <= i < |list| ==> list[i] in nodes
    {
    }

    /** memcpy behind the ID. */
    method CopyReply(packet: array<byte>, reply: seq<byte>)
      requires 2 <= |reply| <= packet.Length
      modifies packet
      ensures packet[..|reply|] == old(packet[..2]) + reply[2..] && packet[|reply|..] == old(packet[|reply|..])
    {
      forall i | 2 <= i < |reply| {
        packet[i] := reply[i];
      }
    }
  }

  /** The walk is at record i of those before; k of the i records behind it were kept. */
  ghost predicate Walked(before: seq<Rec>, now: int, i: nat, recs: seq<Rec>, k: nat) {
    && i <= |before| && k == |Left(i, OverdueAt(before, now))|
    && recs == Pick(before, Left(i, OverdueAt(before, now))) + before[i..]
  }

  lemma {:induction false} WalkStarts(before: seq<Rec>, now: int)
    ensures Walked(before, now, 0, before, 0)
  {
    assert before == Pick(before, []) + before[0..];
  }

  lemma {:induction false} WalkStep(before: seq<Rec>, now: int, i: nat, recs: seq<Rec>, k: nat)
    requires Walked(before, now, i, recs, k) && k < |recs|
    ensures i < |before| && recs[k] == before[i]
    ensures if Overdue(recs[k], now) then Walked(before, now, i + 1, recs[..k] + recs[k + 1..], k)
            else Walked(before, now, i + 1, recs, k + 1)
  {
    hide Overdue;
    var gone := OverdueAt(before, now);
    var front := Pick(before, Left(i, gone));
    assert before[i..] == [before[i]] + before[i + 1..];
    if Overdue(recs[k], now) {
      assert Left(i + 1, gone) == Left(i, gone);
      assert recs[..k] == front;
    } else {
      assert Pick(before, Left(i + 1, gone)) == front + [before[i]];
    }
  }

  lemma {:induction false} WalkEnd(before: seq<Rec>, now: int, i: nat, recs: seq<Rec>, k: nat)
    requires Walked(before, now, i, recs, k) && |recs| <= k
    ensures recs == Kept(before, now) && i - k == |before| - |recs| && i == |before| && k == |recs|
  {
    assert |recs| == k + (|before| - i);
    assert before[|before|..] == [];
  }

  /** The first i entries of the sorted order were removed. */
  ghost predicate Evicted(before: seq<Rec>, cv: seq<Entry>, order: seq<nat>, i: nat, recs: seq<Rec>, list: seq<Entry>) {
    && i <= |order| && |before| == |cv| == |order|
    && recs == Pick(before, Left(|before|, Elements(order[..i])))
    && list == Pick(cv, Left(|before|, Elements(order[..i])))
  }

  lemma {:induction false} SortedOrder(qsort: seq<int> -> seq<nat>, before: seq<Rec>)
    requires Sorts(qsort)
    ensures SortsDown(LastUsed(before), qsort(LastUsed(before)))
  {
  }

  lemma {:induction false} EvictStart(before: seq<Rec>, cv: seq<Entry>, order: seq<nat>)
    requires |before| == |cv| && SortsDown(LastUsed(before), order)
    ensures Evicted(before, cv, order, 0, before, cv)
  {
    LeftAll(|before|);
    assert order[..0] == [] && Elements<nat>([]) == {};
  }

  lemma {:induction false} LeftAll(n: nat)
    ensures Left(n, {}) == seq(n, i => i)
  {
    if n > 0 {
      LeftAll(n - 1);
    }
  }

  lemma {:induction false} EvictStep(before: seq<Rec>, cv: seq<Entry>, order: seq<nat>, i: nat, recs: seq<Rec>,
                                     list: seq<Entry>) returns (k: nat)
    requires Evicted(before, cv, order, i, recs, list) && i < |before| && SortsDown(LastUsed(before), order)
    ensures order[i] < |cv| && k < |list| && k < |recs| && list[k] == cv[order[i]]
    ensures Evicted(before, cv, order, i + 1, recs[..k] + recs[k + 1..], list[..k] + list[k + 1..])
  {
    var gone, x := Elements(order[..i]), order[i];
    assert order[..i + 1] == order[..i] + [x];
    assert Elements(order[..i + 1]) == gone + {x};
    k := LeftRemove(|before|, gone, x);
    PickRemove(before, Left(|before|, gone), k);
    PickRemove(cv, Left(|before|, gone), k);
  }

  lemma {:induction false} PickRemove<T>(s: seq<T>, idx: seq<nat>, k: nat)
    requires k < |idx| && forall i :: 0 <= i < |idx| ==> idx[i] < |s|
    ensures Pick(s, idx[..k] + idx[k + 1..]) == Pick(s, idx)[..k] + Pick(s, idx)[k + 1..]
  {
  }

  lemma {:induction false} LeftRemove(n: nat, gone: set<nat>, x: nat) returns (k: nat)
    requires x < n && x !in gone
    ensures k < |Left(n, gone)| && Left(n, gone)[k] == x
    ensures Left(n, gone + {x}) == Left(n, gone)[..k] + Left(n, gone)[k + 1..]
  {
    if x == n - 1 {
      k := |Left(n, gone)| - 1;
      SameLeft(n - 1, gone, gone + {x});
    } else {
      k := LeftRemove(n - 1, gone, x);
    }
  }

  lemma {:induction false} EvictEnd(before: seq<Rec>, cv: seq<Entry>, order: seq<nat>, n: nat, recs: seq<Rec>,
                                    list: seq<Entry>)
    requires Evicted(before, cv, order, n, recs, list) && n <= |before|
    ensures recs == Evict(before, |before| - n, order)
  {
  }

  /** Comparing the code first makes no difference. */
  lemma {:induction false} MatchIffSameCode(r: Rec, q: Question)
    ensures Matches(r, q) <==>
      StringCode(r.name) == StringCode(q.name) && r.qtype == q.qtype && r.qclass == q.qclass && Lower(r.name) == Lower(q.name)
  {
    if Lower(r.name) == Lower(q.name) {
      EqualUpToCaseEqualCodes(r.name, q.name);
    }
  }
}
