/** The response cache (cache.c) on a plain sequence of records, in the order they were stored. */
module CacheModel {
  import opened Octets
  import opened Records

  const CACHE_NEGTIME := 300
  const CACHE_TIME := 3600
  const CACHE_MAXTIME := 21600
  const CACHE_MINCYCLE := 300
  const CACHE_HIGHWATER := 1000
  const CACHE_LOWWATER := 800

  datatype Rec = Rec(
    name: seq<byte>,
    qtype: nat,
    qclass: nat,
    answers: int,
    created: int,
    lastused: int,
    expires: int,
    packet: seq<byte>)

  // ---------------------------------------------------------------------------
  // Storing and looking up.
  // ---------------------------------------------------------------------------

  /** The ANCOUNT of a header, which dnsheader_t keeps as a signed short. */
  function AnswerCount(packet: seq<byte>): int
    requires 12 <= |packet|
  {
    var n := ReadU16(packet, 6);
    if n < 0x8000 then n else n - 0x1_0000
  }

  function Life(answers: int): int {
    if answers > 0 then CACHE_TIME else CACHE_NEGTIME
  }

  function NewRec(q: Question, packet: seq<byte>, now: int): Rec
    requires 12 <= |packet|
  {
    Rec(q.name, q.qtype, q.qclass, AnswerCount(packet), now, now, now + Life(AnswerCount(packet)), packet)
  }

  /** GET_QR */
  predicate IsReply(flags: nat) {
    flags / 0x8000 % 2 == 1
  }

  /** Does cache_dnspacket keep the packet?  None if parse_query refused it. */
  predicate Storable(p: Option<ParsedQuery>) {
    p.Some? && IsReply(p.value.flags) && p.value.question.name != []
  }

  predicate Askable(p: Option<ParsedQuery>) {
    p.Some? && !IsReply(p.value.flags) && p.value.question.name != [] && p.value.question.qclass == CLASS_INET
  }

  predicate Matches(r: Rec, q: Question) {
    r.qtype == q.qtype && r.qclass == q.qclass && Lower(r.name) == Lower(q.name)
  }

  /** The earliest stored record that matches, or the length of the list. */
  function FirstMatch(recs: seq<Rec>, q: Question): (k: nat)
    ensures k <= |recs|
    ensures k < |recs| ==> Matches(recs[k], q)
    ensures forall i :: 0 <= i < k ==> !Matches(recs[i], q)
  {
    if recs == [] || Matches(recs[0], q) then 0 else 1 + FirstMatch(recs[1..], q)
  }

  /** A hit on a positive record renews its lifetime. */
  function Touch(r: Rec, now: int): Rec {
    if r.answers > 0 then r.(lastused := now, expires := now + CACHE_TIME) else r
  }

  // ---------------------------------------------------------------------------
  // Expiry and eviction.
  // ---------------------------------------------------------------------------

  /** The test of cache_expire; the age is an unsigned difference. */
  predicate Overdue(r: Rec, now: int) {
    r.expires < now || now < r.created || now - r.created > CACHE_MAXTIME
  }

  /** The indices below n that are not gone, ascending. */
  function Left(n: nat, gone: set<nat>): (idx: seq<nat>)
    ensures |idx| <= n && forall i :: 0 <= i < |idx| ==> idx[i] < n
  {
    if n == 0 then [] else if n - 1 in gone then Left(n - 1, gone) else Left(n - 1, gone) + [n - 1]
  }

  function Pick<T>(s: seq<T>, idx: seq<nat>): (r: seq<T>)
    requires forall i :: 0 <= i < |idx| ==> idx[i] < |s|
    ensures |r| == |idx| && forall i :: 0 <= i < |r| ==> r[i] == s[idx[i]]
  {
    seq(|idx|, i requires 0 <= i < |idx| => s[idx[i]])
  }

  function OverdueAt(recs: seq<Rec>, now: int): (gone: set<nat>)
    ensures forall k: nat :: k in gone <==> k < |recs| && Overdue(recs[k], now)
  {
    set k: nat | k < |recs| && Overdue(recs[k], now)
  }

  /** What the walk over the list leaves. */
  function Kept(recs: seq<Rec>, now: int): (r: seq<Rec>)
    ensures |r| <= |recs|
  {
    Pick(recs, Left(|recs|, OverdueAt(recs, now)))
  }

  function LastUsed(recs: seq<Rec>): (keys: seq<int>)
    ensures |keys| == |recs| && forall i :: 0 <= i < |keys| ==> keys[i] == recs[i].lastused
  {
    seq(|recs|, i requires 0 <= i < |recs| => recs[i].lastused)
  }

  /** p is an order that sorts the keys downwards, as cmp_cachemru asks for. */
  ghost predicate SortsDown(keys: seq<int>, p: seq<nat>) {
    && |p| == |keys| && (forall i :: 0 <= i < |p| ==> p[i] < |keys|)
    && (forall i, j :: 0 <= i < j < |p| ==> p[i] != p[j] && keys[p[i]] >= keys[p[j]])
  }

  /** A library sort: whatever order it chooses, it sorts. */
  ghost predicate Sorts(qsort: seq<int> -> seq<nat>) {
    forall keys {:trigger qsort(keys)} :: SortsDown(keys, qsort(keys))
  }

  /** expire_oldest: the first of the sorted records go until low are left. */
  function Evict(recs: seq<Rec>, low: nat, order: seq<nat>): seq<Rec>
    requires low <= |recs| && |order| == |recs|
  {
    Pick(recs, Left(|recs|, Elements(order[..|recs| - low])))
  }

  /** A sweep of cache_expire that ran; qsort is the library's choice of an order. */
  function Sweep(recs: seq<Rec>, now: int, low: nat, high: nat, qsort: seq<int> -> seq<nat>): seq<Rec>
    requires low <= high && Sorts(qsort)
  {
    var kept := Kept(recs, now);
    if |kept| <= high then kept else Evict(kept, low, qsort(LastUsed(kept)))
  }

  // ---------------------------------------------------------------------------
  // What a sweep does.
  // ---------------------------------------------------------------------------

  /** Positions in a sequence of the given length, ascending. */
  ghost predicate Increasing(idx: seq<nat>, n: nat) {
    && (forall i :: 0 <= i < |idx| ==> idx[i] < n)
    && (forall i, j :: 0 <= i < j < |idx| ==> idx[i] < idx[j])
  }

  lemma {:induction false} LeftIsRest(n: nat, gone: set<nat>)
    ensures Increasing(Left(n, gone), n)
    ensures forall k: nat :: k < n ==> (k in Left(n, gone) <==> k !in gone)
  {
    if n > 0 {
      LeftIsRest(n - 1, gone);
    }
  }

  /** Exactly the records that are not overdue survive the walk, in their order. */
  lemma {:induction false} KeptAreInOrder(recs: seq<Rec>, now: int)
    ensures var idx := Left(|recs|, OverdueAt(recs, now));
      Increasing(idx, |recs|) && Kept(recs, now) == Pick(recs, idx)
    ensures forall k: nat :: k < |recs| ==>
      (k in Left(|recs|, OverdueAt(recs, now)) <==>
       now <= recs[k].expires && recs[k].created <= now <= recs[k].created + 21600)
    ensures forall r :: r in Kept(recs, now) ==> !Overdue(r, now)
  {
    forall r ensures Overdue(r, now) <==> !(now <= r.expires && r.created <= now <= r.created + 21600) {
    }
    hide Overdue;
    LeftIsRest(|recs|, OverdueAt(recs, now));
    var kept := Kept(recs, now);
    var idx := Left(|recs|, OverdueAt(recs, now));
    forall i | 0 <= i < |kept| ensures !Overdue(kept[i], now) {
      assert idx[i] in idx;
    }
  }

  lemma {:induction false} LeftCount(n: nat, gone: set<nat>)
    requires forall k: nat :: k in gone ==> k < n
    ensures |Left(n, gone)| + |gone| == n
  {
    if n > 0 {
      if n - 1 in gone {
        LeftCount(n - 1, gone - {n - 1});
        SameLeft(n - 1, gone, gone - {n - 1});
      } else {
        LeftCount(n - 1, gone);
      }
    } else {
      assert gone == {};
    }
  }

  lemma {:induction false} SameLeft(n: nat, a: set<nat>, b: set<nat>)
    requires forall k: nat :: k < n ==> (k in a <==> k in b)
    ensures Left(n, a) == Left(n, b)
  {
    if n > 0 {
      SameLeft(n - 1, a, b);
    }
  }

  /** After an eviction exactly low records are left, in their order, and every record that went
      had been used at least as recently as every record that stayed. */
  lemma {:induction false} EvictionTakesTheRecentlyUsed(recs: seq<Rec>, low: nat, order: seq<nat>)
    requires low <= |recs| && SortsDown(LastUsed(recs), order)
    ensures var gone := Elements(order[..|recs| - low]); var idx := Left(|recs|, gone);
      && |Evict(recs, low, order)| == low && Increasing(idx, |recs|)
      && (forall k: nat :: k < |recs| ==> (k in idx <==> k !in gone))
      && (forall g, k: nat :: g in gone && k < |recs| && k !in gone ==> recs[g].lastused >= recs[k].lastused)
  {
    var n := |recs| - low;
    var gone := Elements(order[..n]);
    LeftIsRest(|recs|, gone);
    SetOfDistinct(order[..n]);
    LeftCount(|recs|, gone);
    forall g, k: nat | g in gone && k < |recs| && k !in gone ensures recs[g].lastused >= recs[k].lastused {
      var i :| 0 <= i < n && order[i] == g;
      SortReaches(LastUsed(recs), order, k);
      var j :| 0 <= j < |order| && order[j] == k;
      assert LastUsed(recs)[order[i]] >= LastUsed(recs)[order[j]];
    }
  }

  /** A sorting order mentions every index. */
  lemma {:induction false} SortReaches(keys: seq<int>, order: seq<nat>, k: nat)
    requires SortsDown(keys, order) && k < |keys|
    ensures k in order
  {
    SetOfDistinct(order);
    if k !in order {
      var all := Elements(order) + {k};
      BoundedSet(all, |keys|);
    }
  }

  lemma {:induction false} BoundedSet(s: set<nat>, n: nat)
    requires forall k: nat :: k in s ==> k < n
    ensures |s| <= n
  {
    LeftCount(n, s);
  }
}
