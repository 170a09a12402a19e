/** The query multiplexer (query.c, qid.c, udp.c) as a state machine: one client query goes out on
    up to three sockets; replies, receive errors and timeouts come back in any order.  The class
    that works in place is QueryTable; its methods are proved against these functions. */
module QueryProtocol {
  import opened Octets

  const QID_POOL_SIZE := 0x1_0000
  const REAL_SOCKETS := 3

  // ---------------------------------------------------------------------------
  // State.
  // ---------------------------------------------------------------------------

  /** A live query.  id tells query objects apart over a whole run. */
  datatype Query = Query(
    id: nat,
    myQid: nat,
    clientQid: nat,
    isDummy: bool,
    awaited: int,
    responded: bool,
    failure: Option<seq<byte>>,
    socks: seq<int>,
    clientTime: int,
    ttl: int)

  /** Why a message was sent to a client. */
  datatype Reason = Success | LastAwaited | Expired

  datatype Sent = Sent(id: nat, msg: seq<byte>, reason: Reason)

  /** A well-formed reply that was handled for a query. */
  datatype Handled = Handled(id: nat, msg: seq<byte>)

  datatype Birth = Birth(clientQid: nat, isDummy: bool)

  /** born, sent and handled are history; leaked are sockets that no query owns any more. */
  datatype State = State(
    list: seq<Query>,
    free: set<nat>,
    sockets: int,
    fds: set<int>,
    leaked: set<int>,
    born: seq<Birth>,
    sent: seq<Sent>,
    handled: seq<Handled>)

  /** The numbers below n. */
  function NumbersBelow(n: nat): (s: set<nat>)
    ensures |s| == n && forall q: nat :: q in s <==> q < n
  {
    if n == 0 then {} else NumbersBelow(n - 1) + {n - 1}
  }

  function AllQids(): set<nat> {
    NumbersBelow(QID_POOL_SIZE)
  }

  const INITIAL := State([], AllQids(), 0, {}, {}, [], [], [])

  function Rcode(msg: seq<byte>): nat {
    if |msg| < 4 then 0 else msg[3] % 16
  }

  /** RCODE is the low four bits of the flags word (RFC 1035 section 4.1.1). */
  lemma {:induction false} RcodeIsInFlags(msg: seq<byte>)
    requires 4 <= |msg|
    ensures Rcode(msg) == ReadU16(msg, 2) % 16
  {
  }

  /** The reply with the client's own ID in front (both in the host's little-endian order). */
  function WithId(msg: seq<byte>, qid: nat): seq<byte> {
    [qid % 256, qid / 256 % 256] + if |msg| < 2 then [] else msg[2..]
  }

  lemma {:induction false} WithIdIs(msg: seq<byte>, qid: nat)
    ensures 2 <= |msg| ==> WithId(msg, qid) == [qid % 256, qid / 256 % 256] + msg[2..]
  {
  }

  function SocketsWanted(isDummy: bool): nat {
    if isDummy then 1 else REAL_SOCKETS
  }

  // ---------------------------------------------------------------------------
  // Steps.
  // ---------------------------------------------------------------------------

  /** Index of the first query with the client's ID, or the length of the list. */
  function FindClient(list: seq<Query>, clientQid: nat): (k: nat)
    ensures k <= |list|
    ensures k < |list| ==> list[k].clientQid == clientQid
    ensures forall i :: 0 <= i < k ==> list[i].clientQid != clientQid
  {
    if list == [] || list[0].clientQid == clientQid then 0 else 1 + FindClient(list[1..], clientQid)
  }

  function FindId(list: seq<Query>, id: nat): (k: nat)
    ensures k <= |list|
    ensures k < |list| ==> list[k].id == id
    ensures forall i :: 0 <= i < k ==> list[i].id != id
  {
    if list == [] || list[0].id == id then 0 else 1 + FindId(list[1..], id)
  }

  function Update(s: State, k: nat, q: Query): State
    requires k < |s.list|
  {
    s.(list := s.list[k := q])
  }

  /** query_delete_next and query_destroy: unlink, give back the ID and the sockets. */
  function Delete(s: State, k: nat): State
    requires k < |s.list|
  {
    var q := s.list[k];
    s.(list := s.list[..k] + s.list[k + 1..],
       free := s.free + {q.myQid},
       sockets := s.sockets - |q.socks|,
       fds := s.fds - Elements(q.socks))
  }

  /** query_create when socket() fails after opening socks: they stay open and counted. */
  function Leak(s: State, socks: seq<int>): State {
    s.(sockets := s.sockets + |socks|,
       fds := s.fds + Elements(socks),
       leaked := s.leaked + Elements(socks))
  }

  function Create(s: State, clientQid: nat, isDummy: bool, socks: seq<int>, pick: nat, now: int, ttl: int): State {
    s.(list := s.list + [Query(|s.born|, pick, clientQid, isDummy, 0, false, None, socks, now, ttl)],
       free := s.free - {pick},
       sockets := s.sockets + |socks|,
       fds := s.fds + Elements(socks),
       born := s.born + [Birth(clientQid, isDummy)])
  }

  /** query_add. */
  function Add(s: State, max: nat, clientQid: nat, isDummy: bool, socks: seq<int>, pick: nat, now: int, ttl: int): State {
    var k := FindClient(s.list, clientQid);
    if k < |s.list| then Update(s, k, s.list[k].(clientTime := now))
    else if s.sockets >= max then s
    else if |socks| < SocketsWanted(isDummy) then Leak(s, socks)
    else Create(s, clientQid, isDummy, socks, pick, now, ttl)
  }

  /** Lines 587-615 of udp.c, also 477-493: the last awaited answer ends the query. */
  function CountDown(s: State, k: nat): State
    requires k < |s.list|
  {
    if s.list[k].awaited == 1 then Delete(s, k)
    else Update(s, k, s.list[k].(awaited := s.list[k].awaited - 1))
  }

  /** Forward or remember a well-formed reply (udp.c lines 510-559). */
  function Digest(s: State, k: nat, msg: seq<byte>): (r: State)
    requires k < |s.list|
    ensures |r.list| == |s.list|
  {
    var q := s.list[k];
    var t := s.(handled := s.handled + [Handled(q.id, msg)]);
    if q.isDummy || q.responded then t
    else if Rcode(msg) == 0 || q.awaited == 1 then
      var reason := if Rcode(msg) == 0 then Success else LastAwaited;
      Update(t, k, q.(responded := true)).(sent := t.sent + [Sent(q.id, WithId(msg, q.clientQid), reason)])
    else if q.failure.None? then Update(t, k, q.(failure := Some(msg)))
    else t
  }

  function HandleReply(s: State, k: nat, msg: seq<byte>): State
    requires k < |s.list|
  {
    CountDown(Digest(s, k, msg), k)
  }

  predicate IsExpired(q: Query, now: int) {
    q.clientTime < now - q.ttl
  }

  /** The body of query_timeout's loop for an expired query. */
  function Expire(s: State, k: nat): (r: State)
    requires k < |s.list|
    ensures |r.list| == |s.list| - 1
  {
    var q := s.list[k];
    var t := if q.failure.Some? && !q.responded
             then s.(sent := s.sent + [Sent(q.id, WithId(q.failure.value, q.clientQid), Expired)])
             else s;
    Delete(t, k)
  }

  /** query_timeout from the query at index k.  After a deletion the cursor skips the query that
      took the deleted one's place; after deleting the last one it is back at the list head. */
  function Sweep(s: State, k: nat, now: int): State
    decreases |s.list|, |s.list| - k
  {
    if k >= |s.list| then s
    else if !IsExpired(s.list[k], now) then Sweep(s, k + 1, now)
    else if k == |s.list| - 1 then Sweep(Expire(s, k), 0, now)
    else Sweep(Expire(s, k), k + 1, now)
  }

  // ---------------------------------------------------------------------------
  // Runs.
  // ---------------------------------------------------------------------------

  datatype Event =
    | Request(clientQid: nat, isDummy: bool, socks: seq<int>, pick: nat, now: int, ttl: int)
    | Forwarded(id: nat, servers: nat)
    | Limited(id: nat, ttl: int)
    | Dropped(id: nat)
    | BadReply(id: nat)
    | GoodReply(id: nat, msg: seq<byte>)
    | Tick(now: int)

  /** What socket() hands out: descriptors that are not open, at most as many as asked for. */
  predicate FreshSocks(s: State, isDummy: bool, socks: seq<int>) {
    && |socks| <= SocketsWanted(isDummy)
    && (forall i :: 0 <= i < |socks| ==> socks[i] !in s.fds)
    && (forall i, j :: 0 <= i < j < |socks| ==> socks[i] != socks[j])
  }

  /** What the environment guarantees: fresh sockets, qid_get draws from a pool that is not empty,
      and a reply that passed check_reply has a header. */
  predicate Possible(s: State, max: nat, e: Event) {
    match e
    case Request(_, isDummy, socks, pick, _, _) =>
      FreshSocks(s, isDummy, socks) && (s.free != {} ==> pick in s.free)
    case GoodReply(_, msg) => 12 <= |msg|
    case _ => true
  }

  function Step(s: State, max: nat, e: Event): State {
    match e
    case Request(clientQid, isDummy, socks, pick, now, ttl) => Add(s, max, clientQid, isDummy, socks, pick, now, ttl)
    case Forwarded(id, servers) =>
      var k := FindId(s.list, id);
      if k < |s.list| then Update(s, k, s.list[k].(awaited := s.list[k].awaited + servers)) else s
    case Limited(id, ttl) =>
      var k := FindId(s.list, id);
      if k < |s.list| then Update(s, k, s.list[k].(ttl := ttl)) else s
    case Dropped(id) =>
      var k := FindId(s.list, id);
      if k < |s.list| then Delete(s, k) else s
    case BadReply(id) =>
      var k := FindId(s.list, id);
      if k < |s.list| then CountDown(s, k) else s
    case GoodReply(id, msg) =>
      var k := FindId(s.list, id);
      if k < |s.list| then HandleReply(s, k, msg) else s
    case Tick(now) => Sweep(s, 0, now)
  }

  function Run(max: nat, es: seq<Event>): State {
    if es == [] then INITIAL else Step(Run(max, es[..|es| - 1]), max, es[|es| - 1])
  }

  ghost predicate PossibleRun(max: nat, es: seq<Event>) {
    es == [] || (PossibleRun(max, es[..|es| - 1]) && Possible(Run(max, es[..|es| - 1]), max, es[|es| - 1]))
  }

  /** A possible step from where a possible run ended makes a longer one. */
  lemma {:induction false} OneMoreStep(max: nat, es: seq<Event>, e: Event)
    requires PossibleRun(max, es) && Possible(Run(max, es), max, e)
    ensures PossibleRun(max, es + [e]) && Run(max, es + [e]) == Step(Run(max, es), max, e)
  {
    assert (es + [e])[..|es|] == es;
  }

  // ---------------------------------------------------------------------------
  // The ID on the wire.
  // ---------------------------------------------------------------------------

  /** The ID a client or server reads and writes at the head of a message, as query_add reads it
      and the reply path writes it: unchanged, in the host's little-endian order. */
  function ReadId(msg: seq<byte>): nat
    requires 2 <= |msg|
  {
    msg[1] as nat * 256 + msg[0] as nat
  }

  /** A client gets its reply under the ID it asked with, whatever ID the reply arrived with. */
  lemma {:induction false} ClientGetsItsOwnId(request: seq<byte>, reply: seq<byte>)
    requires 2 <= |request| && 2 <= |reply|
    ensures WithId(reply, ReadId(request))[..2] == request[..2]
    ensures WithId(reply, ReadId(request))[2..] == reply[2..] && |WithId(reply, ReadId(request))| == |reply|
  {
  }

  /** What query_add writes for the servers: the query's own ID, in network order (line 257 of
      query.c) when the query is new and in host order (line 235) when it was on the list. */
  function Outgoing(msg: seq<byte>, myQid: nat, isNew: bool): (r: seq<byte>)
  {
    if isNew then U16(myQid % 0x1_0000) + if |msg| < 2 then [] else msg[2..] else WithId(msg, myQid)
  }

  /** So a repeated request goes out under the same ID as the first one exactly if the two octets
      of the ID are equal. */
  lemma {:induction false} RepeatKeepsIdIff(msg: seq<byte>, myQid: nat)
    requires myQid < QID_POOL_SIZE
    ensures Outgoing(msg, myQid, true) == Outgoing(msg, myQid, false) <==> myQid / 256 == myQid % 256
  {
    var a, b := Outgoing(msg, myQid, true), Outgoing(msg, myQid, false);
    assert a[0] == myQid / 256 && a[1] == myQid % 256;
    assert b[0] == myQid % 256 && b[1] == myQid / 256;
  }
}
