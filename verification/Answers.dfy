/** master_lookup (master.c): how the local master assembles its reply, and that the client can
    read it. */
module Answers {
  import opened Octets
  import opened NameWalk
  import opened Records
  import opened NameCodec
  import opened ReplyFormat
  import opened Assembly
  import opened Master
  import opened LocalReply

  // ---------------------------------------------------------------------------
  // Assembling it.
  // ---------------------------------------------------------------------------

  /** The cursor returns record k of the zone, or nothing after the last one. */
  lemma {:induction false} CursorStep(db: seq<DnsRec>, name: seq<byte>, from: nat, k: nat)
    requires k < |Servers(db, name, 0)|
    requires Servers(db, name, from) == Servers(db, name, 0)[k..]
    ensures var i := Servers(db, name, 0)[k];
      Servers(db, name, from) == [i] + Servers(db, name, i + 1) ==> Servers(db, name, i + 1) == Servers(db, name, 0)[k + 1..]
    ensures Zones(db, name)[k] == ZoneOf(db[Servers(db, name, 0)[k]])
  {
    hide Servers;
    var all := Servers(db, name, 0);
    var i := all[k];
    if Servers(db, name, from) == [i] + Servers(db, name, i + 1) {
      assert Servers(db, name, i + 1) == Servers(db, name, from)[1..];
    }
  }

  /** dns_lookup has returned k servers and now r. */
  ghost predicate AtCursor(db: seq<DnsRec>, name: seq<byte>, last: int, k: nat, r: Option<nat>) {
    var all := Servers(db, name, 0);
    && -1 <= last < |db| && k <= |all| && Servers(db, name, last + 1) == all[k..]
    && match r
       case None => k == |all|
       case Some(i) => k < |all| && i == all[k]
  }

  /** What DnsLookup promises of its result. */
  ghost predicate NextServer(db: seq<DnsRec>, name: seq<byte>, last: int, r: Option<nat>) {
    var start := if last < 0 then 0 else last + 1;
    match r
    case None => Servers(db, name, start) == []
    case Some(i) => Servers(db, name, start) == [i] + Servers(db, name, i + 1)
  }

  lemma {:induction false} CursorStarts(db: seq<DnsRec>, name: seq<byte>, r: Option<nat>)
    requires NextServer(db, name, -1, r)
    ensures AtCursor(db, name, -1, 0, r)
  {
    hide Servers;
  }

  lemma {:induction false} CursorMoves(db: seq<DnsRec>, name: seq<byte>, last: int, k: nat, i: nat, r: Option<nat>)
    requires AtCursor(db, name, last, k, Some(i)) && NextServer(db, name, last, Some(i))
    requires i < |db| && NextServer(db, name, i, r)
    ensures AtCursor(db, name, i, k + 1, r)
  {
    hide Servers;
    CursorStep(db, name, last + 1, k);
  }

  lemma {:induction false} CursorZone(db: seq<DnsRec>, name: seq<byte>, last: int, k: nat, r: Option<nat>)
    requires AtCursor(db, name, last, k, r)
    ensures |Zones(db, name)| == |Servers(db, name, 0)|
    ensures if r.None? then k == |Zones(db, name)| else
      k < |Zones(db, name)| && r.value < |db| && db[r.value].Dns? && Zones(db, name)[k] == ZoneOf(db[r.value])
  {
    hide Servers;
  }

  /** One record of the authority section: the owner in full, or a pointer to the first owner. */
  method CompileZone(x: Assembly, pos: nat, z: Zone) returns (at: nat)
    requires x.Valid() && x.rdata == None && x.here + |ZoneOctets(pos, pos == 0, z)| <= x.packet.Length
    modifies x`here, x`rdata, x.packet
    ensures x.Valid() && x.rdata == None && at == if pos == 0 then old(x.here) else pos
    ensures x.Body() == old(x.Body()) + ZoneOctets(pos, pos == 0, z)
  {
    hide Wire, Fixed, PointerOctets;
    ghost var body := x.Body();
    at := pos;
    if pos == 0 {
      at := x.CompileName(z.domain);
    } else {
      x.CompileNamePointer(pos);
    }
    x.NameRecord(TYPE_NS, z.host);
    Reassociate(body, if pos == 0 then Wire(z.domain) else PointerOctets(pos), Fixed(TYPE_NS, Wire(z.host)), []);
  }

  /** Record k of the authority section continues the first k ones and fits if all fit. */
  lemma {:induction false} ZoneNext(start: nat, pos: nat, zones: seq<Zone>, k: nat)
    requires k < |zones| && DATA_BEGIN <= start && pos == if k == 0 then 0 else start
    ensures AuthorityOctets(start, zones[..k + 1]) == AuthorityOctets(start, zones[..k]) + ZoneOctets(pos, pos == 0, zones[k])
    ensures |AuthorityOctets(start, zones[..k])| + |ZoneOctets(pos, pos == 0, zones[k])| <= |AuthorityOctets(start, zones)|
    ensures k == 0 ==> AuthorityOctets(start, zones[..k]) == []
  {
    hide AuthorityOctets, Wire, Fixed, PointerOctets;
    ZonesPrefix(start, zones, k);
    NoZones(start);
    assert zones[..0] == [];
    assert ZoneOctets(start, k == 0, zones[k]) == ZoneOctets(pos, pos == 0, zones[k]);
  }

  /** compile_dnsrecords */
  method CompileDnsRecords(db: Database, x: Assembly, name: seq<byte>)
    requires db.Valid() && x.Valid() && x.rdata == None && x.nscount == 0 && x.flags == FLAG_QR
    requires x.here + |AuthorityOctets(x.here, Zones(db.Contents(), name))| <= x.packet.Length
    modifies x`here, x`rdata, x`flags, x`nscount, x.packet
    ensures x.Valid() && x.rdata == None
    ensures x.Body() == old(x.Body()) + AuthorityOctets(old(x.here), Zones(db.Contents(), name))
    ensures x.nscount == |Zones(db.Contents(), name)| && x.flags == Flags(Zones(db.Contents(), name) != [])
  {
    hide AuthorityOctets, Servers, ZoneOctets, Zones, SuffixTest, AtCursor;
    ghost var contents := db.Contents();
    ghost var zones := Zones(contents, name);
    ghost var start, body := x.here, x.Body();
    NoZones(start);
    assert zones[..0] == [] && zones[..|zones|] == zones;
    var last, pos := -1, 0;
    var r := db.DnsLookup(name, last);
    ghost var k := 0;
    CursorStarts(contents, name, r);
    CursorZone(contents, name, last, k, r);
    while r.Some?
      invariant db.Contents() == contents
      invariant x.Valid() && x.rdata == None && x.nscount == k <= |zones| && x.flags == FLAG_QR
      invariant pos == if k == 0 then 0 else start
      invariant AtCursor(contents, name, last, k, r) && NextServer(contents, name, last, r)
      invariant r.None? ==> k == |zones|
      invariant x.Body() == body + AuthorityOctets(start, zones[..k])
      decreases |zones| - k
    {
      CursorZone(contents, name, last, k, r);
      ZoneNext(start, pos, zones, k);
      Reassociate(body, AuthorityOctets(start, zones[..k]), ZoneOctets(pos, pos == 0, zones[k]), []);
      ghost var before, i := last, r.value;
      last := r.value;
      pos := CompileZone(x, pos, ZoneOf(db.dbv[last]));
      x.nscount := x.nscount + 1;
      r := db.DnsLookup(name, last);
      CursorMoves(contents, name, before, k, i, r);
      k := k + 1;
      CursorZone(contents, name, last, k, r);
    }
    if x.nscount > 0 {
      x.flags := FLAG_QR + FLAG_AA;
    }
  }

  /** A finished message is the reply's octets, from the flags on. */
  lemma {:induction false} Finished(r: Reply, counts: seq<byte>, body: seq<byte>)
    requires counts == CountOctets(r)
    requires body == QuestionOctets(r.question) + AnswersOctets(r.question.qtype, r.answers)
      + AuthorityOctets(AuthorityStart(r), r.authority)
    ensures counts + body == ReplyOctets(r)[2..]
  {
    hide CountOctets, QuestionOctets, AnswersOctets, AuthorityOctets, AuthorityStart;
  }

  /** The octets to copy behind the client's ID. */
  method Finish(x: Assembly, ghost r: Reply)
    requires x.Valid() && x.rdata == None && x.question == 1
    requires x.flags == r.flags && x.ancount == |r.answers| && x.nscount == |r.authority|
    requires x.Body() == QuestionOctets(r.question) + AnswersOctets(r.question.qtype, r.answers)
      + AuthorityOctets(AuthorityStart(r), r.authority)
    modifies x`rdata, x`len, x.packet
    ensures x.Valid() && DATA_BEGIN <= x.len == x.here <= x.packet.Length && x.packet[2..x.len] == ReplyOctets(r)[2..]
  {
    hide QuestionOctets, AnswersOctets, AuthorityOctets, AuthorityStart, ReplyOctets;
    x.EndAssembly();
    Finished(r, x.packet[2..DATA_BEGIN], x.Body());
    assert x.packet[2..x.len] == x.packet[2..DATA_BEGIN] + x.Body();
  }

  lemma {:induction false} ReplySize(r: Reply)
    ensures AuthorityStart(r) == DATA_BEGIN + |QuestionOctets(r.question)| + |AnswersOctets(r.question.qtype, r.answers)|
    ensures |ReplyOctets(r)| == AuthorityStart(r) + |AuthorityOctets(AuthorityStart(r), r.authority)|
  {
    hide AuthorityOctets, QuestionOctets, AnswersOctets;
  }

  /** What a reply with one answer holds, and that its parts fit when it fits. */
  lemma {:induction false} OneAnswer(r: Reply, rdata: seq<byte>)
    requires r.answers == [rdata]
    ensures AnswersOctets(r.question.qtype, r.answers) == AnswerOctets(r.question.qtype, rdata)
    ensures AuthorityStart(r) == DATA_BEGIN + |QuestionOctets(r.question)| + 12 + |rdata|
    ensures |ReplyOctets(r)| == AuthorityStart(r) + |AuthorityOctets(AuthorityStart(r), r.authority)|
  {
    ReplySize(r);
    hide AuthorityOctets, QuestionOctets;
    assert r.answers[..0] == [];
  }

  /** The answer to a reverse lookup: a name. */
  method AnswerName(db: Database, x: Assembly, q: Question, host: seq<byte>)
    requires db.Valid()
    requires |ReplyOctets(Positive(db.Contents(), q, Wire(host)))| <= x.packet.Length
    modifies x, x.packet
    ensures x.Valid() && DATA_BEGIN <= x.len == x.here <= x.packet.Length
    ensures x.packet[2..x.len] == ReplyOctets(Positive(db.Contents(), q, Wire(host)))[2..]
  {
    hide QuestionOctets, AnswersOctets, AuthorityOctets, AuthorityStart, ReplyOctets, Zones, Wire, Fixed, Flags;
    ghost var r := Positive(db.Contents(), q, Wire(host));
    OneAnswer(r, Wire(host));
    x.BeginAssembly(q);
    x.CompileObjectName();
    x.NameRecord(q.qtype, host);
    Reassociate(QuestionOctets(q), [0xC0, 0x0C], Fixed(q.qtype, Wire(host)), []);
    CompileDnsRecords(db, x, q.name);
    x.ancount := 1;
    Finish(x, r);
  }

  /** The answer to an address lookup. */
  method AnswerAddress(db: Database, x: Assembly, q: Question, ip: nat)
    requires db.Valid() && ip < 0x1_0000_0000
    requires |ReplyOctets(Positive(db.Contents(), q, U32(ip)))| <= x.packet.Length
    modifies x, x.packet
    ensures x.Valid() && DATA_BEGIN <= x.len == x.here <= x.packet.Length
    ensures x.packet[2..x.len] == ReplyOctets(Positive(db.Contents(), q, U32(ip)))[2..]
  {
    hide QuestionOctets, AnswersOctets, AuthorityOctets, AuthorityStart, ReplyOctets, Zones, U32, Fixed, Flags;
    ghost var r := Positive(db.Contents(), q, U32(ip));
    OneAnswer(r, U32(ip));
    x.BeginAssembly(q);
    x.CompileObjectName();
    x.AddressRecord(q.qtype, ip);
    Reassociate(QuestionOctets(q), [0xC0, 0x0C], Fixed(q.qtype, U32(ip)), []);
    CompileDnsRecords(db, x, q.name);
    x.ancount := 1;
    Finish(x, r);
  }

  /** A reply without answers. */
  method AnswerNothing(x: Assembly, q: Question)
    requires |ReplyOctets(Reply(q, Flags(true), [], []))| <= x.packet.Length
    modifies x, x.packet
    ensures x.Valid() && DATA_BEGIN <= x.len == x.here <= x.packet.Length
    ensures x.packet[2..x.len] == ReplyOctets(Reply(q, Flags(true), [], []))[2..]
  {
    hide QuestionOctets, ReplyOctets, AuthorityStart, AnswersOctets, AuthorityOctets;
    ghost var r := Reply(q, Flags(true), [], []);
    ReplySize(r);
    NoAnswers(q);
    NoZones(AuthorityStart(r));
    x.BeginAssembly(q);
    x.ancount := 0;
    x.flags := FLAG_QR + FLAG_AA;
    Finish(x, r);
  }

  lemma {:induction false} HostPrefix(zones: seq<Zone>, k: nat)
    requires k < |zones|
    ensures AnswersOctets(TYPE_NS, HostOctets(zones)[..k + 1])
         == AnswersOctets(TYPE_NS, HostOctets(zones)[..k]) + AnswerOctets(TYPE_NS, Wire(zones[k].host))
    ensures |AnswersOctets(TYPE_NS, HostOctets(zones)[..k + 1])| <= |AnswersOctets(TYPE_NS, HostOctets(zones))|
  {
    AnswersPrefix(TYPE_NS, HostOctets(zones), k);
    assert HostOctets(zones)[k] == Wire(zones[k].host);
  }

  /** One name server as an answer. */
  method CompileHost(x: Assembly, host: seq<byte>)
    requires x.Valid() && x.rdata == None && x.here + |AnswerOctets(TYPE_NS, Wire(host))| <= x.packet.Length
    modifies x`here, x`rdata, x.packet
    ensures x.Valid() && x.rdata == None && x.Body() == old(x.Body()) + AnswerOctets(TYPE_NS, Wire(host))
  {
    hide Wire, Fixed;
    ghost var body := x.Body();
    x.CompileObjectName();
    x.NameRecord(TYPE_NS, host);
    Reassociate(body, [0xC0, 0x0C], Fixed(TYPE_NS, Wire(host)), []);
  }

  /** The loop over the name servers: one answer for each. */
  method CompileServers(db: Database, x: Assembly, name: seq<byte>, first: nat)
    requires db.Valid() && x.Valid() && x.rdata == None && x.ancount == 0
    requires Zones(db.Contents(), name) != [] && first == Servers(db.Contents(), name, 0)[0]
    requires Servers(db.Contents(), name, 0) == [first] + Servers(db.Contents(), name, first + 1)
    requires x.here + |AnswersOctets(TYPE_NS, HostOctets(Zones(db.Contents(), name)))| <= x.packet.Length
    modifies x`here, x`rdata, x`ancount, x.packet
    ensures x.Valid() && x.rdata == None && x.ancount == |Zones(db.Contents(), name)|
    ensures x.Body() == old(x.Body()) + AnswersOctets(TYPE_NS, HostOctets(Zones(db.Contents(), name)))
  {
    hide AnswersOctets, AnswerOctets, Servers, Zones, SuffixTest, Wire, HostOctets, AtCursor;
    ghost var contents := db.Contents();
    ghost var zones := Zones(contents, name);
    ghost var body := x.Body();
    var last, rec := -1, Some(first);
    ghost var k := 0;
    CursorStarts(contents, name, rec);
    CursorZone(contents, name, last, k, rec);
    NoHosts(zones);
    while rec.Some?
      invariant db.Contents() == contents
      invariant x.Valid() && x.rdata == None && x.ancount == k <= |zones|
      invariant AtCursor(contents, name, last, k, rec) && NextServer(contents, name, last, rec)
      invariant rec.None? ==> k == |zones|
      invariant x.Body() == body + AnswersOctets(TYPE_NS, HostOctets(zones)[..k])
      decreases |zones| - k
    {
      CursorZone(contents, name, last, k, rec);
      HostPrefix(zones, k);
      Reassociate(body, AnswersOctets(TYPE_NS, HostOctets(zones)[..k]), AnswerOctets(TYPE_NS, Wire(zones[k].host)), []);
      ghost var before, i := last, rec.value;
      last := rec.value;
      CompileHost(x, ZoneOf(db.dbv[last]).host);
      x.ancount := x.ancount + 1;
      rec := db.DnsLookup(name, last);
      CursorMoves(contents, name, before, k, i, rec);
      k := k + 1;
      CursorZone(contents, name, last, k, rec);
    }
    assert HostOctets(zones)[..k] == HostOctets(zones);
  }

  lemma {:induction false} NoHosts(zones: seq<Zone>)
    ensures AnswersOctets(TYPE_NS, HostOctets(zones)[..0]) == []
  {
  }

  /** The name servers of the question's name, as answers. */
  method AnswerServers(db: Database, x: Assembly, q: Question, first: nat)
    requires db.Valid() && q.qtype == TYPE_NS
    requires Zones(db.Contents(), q.name) != [] && first == Servers(db.Contents(), q.name, 0)[0]
    requires Servers(db.Contents(), q.name, 0) == [first] + Servers(db.Contents(), q.name, first + 1)
    requires |ReplyOctets(Reply(q, Flags(true), HostOctets(Zones(db.Contents(), q.name)), []))| <= x.packet.Length
    modifies x, x.packet
    ensures x.Valid() && DATA_BEGIN <= x.len == x.here <= x.packet.Length
    ensures x.packet[2..x.len] == ReplyOctets(Reply(q, Flags(true), HostOctets(Zones(db.Contents(), q.name)), []))[2..]
  {
    hide AnswersOctets, AnswerOctets, AuthorityOctets, AuthorityStart, Servers, ZonesOf, SuffixTest, QuestionOctets, Wire,
      ReplyOctets, HostOctets;
    ghost var contents := db.Contents();
    ghost var zones := Zones(contents, q.name);
    ghost var r := Reply(q, Flags(true), HostOctets(zones), []);
    ReplySize(r);
    NoAnswers(q);
    NoZones(AuthorityStart(r));
    x.BeginAssembly(q);
    ghost var body := x.Body();
    CompileServers(db, x, q.name, first);
    assert HostOctets(zones)[..|zones|] == HostOctets(zones);
    x.flags := FLAG_QR + FLAG_AA;
    Finish(x, r);
  }

  // ---------------------------------------------------------------------------
  // The lookup.
  // ---------------------------------------------------------------------------

  lemma {:induction false} FirstIsStored(db: seq<DnsRec>, key: Key)
    requires First(db, key).Some?
    ensures First(db, key).value in db && Is(First(db, key).value, key)
  {
    FirstIsFirst(db, key);
  }

  /** The branches of master_lookup for a parsed question: is there a reply, now in the packet? */
  method Answer(db: Database, x: Assembly, flags: nat, q: Question) returns (found: bool)
    requires db.Valid()
    requires MasterReply(db.Contents(), flags, q).Some? ==>
      |ReplyOctets(MasterReply(db.Contents(), flags, q).value)| <= x.packet.Length
    modifies x, x.packet
    ensures found <==> MasterReply(db.Contents(), flags, q).Some?
    ensures found ==> DATA_BEGIN <= x.len == x.here <= x.packet.Length
    ensures found ==> x.packet[2..x.len] == ReplyOctets(MasterReply(db.Contents(), flags, q).value)[2..]
  {
    hide ReplyOctets, Positive, First, HostOctets, StandardQuery, AfterFirstDot, Wire, U32, SuffixTest;
    if q.qclass != CLASS_INET || !StandardQuery(flags) {
      return false;
    }
    if q.qtype == TYPE_PTR {
      var arpa := ReverseAddress(q.name);
      if arpa == None {
        return false;
      }
      var rec := db.PtrLookup(arpa.value);
      if rec.Some? {
        AnswerName(db, x, q, rec.value.owner);
        return true;
      }
    } else if q.qtype == TYPE_A {
      var rec := db.NameLookup(q.name);
      if rec.Some? {
        FirstIsStored(db.Contents(), NameKey(q.name));
        AnswerAddress(db, x, q, rec.value.ip);
        return true;
      }
    } else if q.qtype == TYPE_NS {
      var rec := db.DnsLookup(q.name, -1);
      if rec.Some? {
        AnswerServers(db, x, q, rec.value);
        return true;
      }
    } else {
      return false;
    }
    found := AnswerNegative(db, x, q);
  }

  /** The last part of master_lookup: a negative reply if the master has authority. */
  method AnswerNegative(db: Database, x: Assembly, q: Question) returns (found: bool)
    requires db.Valid()
    requires Negative(db.Contents(), q).Some? ==> |ReplyOctets(Negative(db.Contents(), q).value)| <= x.packet.Length
    modifies x, x.packet
    ensures found <==> Negative(db.Contents(), q).Some?
    ensures found ==> DATA_BEGIN <= x.len == x.here <= x.packet.Length
    ensures found ==> x.packet[2..x.len] == ReplyOctets(Negative(db.Contents(), q).value)[2..]
  {
    hide ReplyOctets, AfterFirstDot;
    var domain := AfterFirstDot(q.name);
    if domain == None {
      return false;
    }
    var own := db.AuthorityLookup(q.name);
    if own == None {
      own := db.AuthorityLookup(domain.value);
    }
    if own == None {
      return false;
    }
    AnswerNothing(x, q);
    found := true;
  }

  /** The reply to a packet; leftover is what the name buffer held, which only the root shows. */
  ghost function Lookup(db: seq<DnsRec>, msg: seq<byte>, leftover: seq<byte>): Option<Reply>
    requires DATA_BEGIN <= |msg|
  {
    match Parsed(msg, leftover)
    case None => None
    case Some(p) => MasterReply(db, p.flags, p.question)
  }

  /** master_lookup: the reply overwrites the query, except for its ID.  Neither the assembly buffer
      nor the caller's has a check of its own: in buffers of any size the assembly and the copy end
      exactly at the reply's length, so that they stay inside theirs exactly if the reply fits. */
  method MasterLookup(db: Database, x: Assembly, rr: RR, msg: array<byte>, len: nat) returns (n: nat)
    requires db.Valid() && rr.Valid() && DATA_BEGIN <= len <= msg.Length
    requires msg != x.packet && msg != rr.mem && x.packet != rr.mem
    requires Lookup(db.Contents(), msg[..len], rr.Name()).Some? ==>
      |ReplyOctets(Lookup(db.Contents(), msg[..len], rr.Name()).value)| <= x.packet.Length
    requires Lookup(db.Contents(), msg[..len], rr.Name()).Some? ==>
      |ReplyOctets(Lookup(db.Contents(), msg[..len], rr.Name()).value)| <= msg.Length
    modifies x, x.packet, rr, rr.mem, msg
    ensures match old(Lookup(db.Contents(), msg[..len], rr.Name()))
      case None => n == 0 && msg[..] == old(msg[..])
      case Some(r) =>
        && n == x.here == |ReplyOctets(r)| && n <= msg.Length
        && msg[..n] == old(msg[..2]) + ReplyOctets(r)[2..] && msg[n..] == old(msg[n..])
  {
    hide ReplyOctets, MasterReply, Parsed, RR.Name, RR.Flags;
    n := 0;
    ghost var request := msg[..len];
    var rc := ParseQuery(msg[..len], rr);
    if rc != 0 {
      return;
    }
    var found := Answer(db, x, rr.Flags(), Question(rr.Name(), rr.rtype, rr.rclass));
    if found {
      ghost var id, size := msg[..2], x.len;
      ghost var rest := msg[size..];
      n := x.len;
      forall i | 2 <= i < n {
        msg[i] := x.packet[i];
      }
      assert msg[..n] == id + x.packet[2..n] && msg[n..] == rest;
    }
  }

  // ---------------------------------------------------------------------------
  // The client can read it.
  // ---------------------------------------------------------------------------

  /** No name of the database takes more octets than the reader keeps. */
  predicate ShortNames(db: seq<DnsRec>) {
    forall i :: 0 <= i < |db| ==>
      |Wire(db[i].owner)| <= DATA_KEPT && (db[i].Dns? ==> |Wire(db[i].host)| <= DATA_KEPT)
  }

  lemma {:induction false} AnswersTakeRoom(rtype: nat, answers: seq<seq<byte>>)
    ensures 12 * |answers| <= |AnswersOctets(rtype, answers)|
  {
    if answers != [] {
      AnswersTakeRoom(rtype, answers[..|answers| - 1]);
    }
  }

  lemma {:induction false} ZonesTakeRoom(pos: nat, zones: seq<Zone>)
    ensures 10 * |zones| <= |AuthorityOctets(pos, zones)|
  {
    if zones != [] {
      ZonesTakeRoom(pos, zones[..|zones| - 1]);
    }
  }

  /** A reply is for its question, and its authority section is the zone of the name, or empty. */
  lemma {:induction false} ReplyShape(db: seq<DnsRec>, flags: nat, q: Question)
    requires MasterReply(db, flags, q).Some?
    ensures var r := MasterReply(db, flags, q).value;
      r.question == q && (r.authority == [] || r.authority == Zones(db, q.name))
  {
    hide Wire, U32, Zones, SuffixTest, AfterFirstDot, StandardQuery, First, HostOctets;
  }

  /** If no name in the database takes more than 252 octets, the reader keeps the data of every reply. */
  lemma {:induction false} ReplyDataFits(db: seq<DnsRec>, flags: nat, q: Question)
    requires ShortNames(db) && MasterReply(db, flags, q).Some?
    ensures DataKept(MasterReply(db, flags, q).value)
  {
    hide Wire, U32, Zones, SuffixTest, AfterFirstDot, StandardQuery;
    ZonesAreShort(db, q.name);
    if q.qtype == TYPE_PTR && First(db, ArpaKey(ReverseAddress(q.name).value)).Some? {
      FirstIsStored(db, ArpaKey(ReverseAddress(q.name).value));
    }
  }

  lemma {:induction false} ZonesAreShort(db: seq<DnsRec>, name: seq<byte>)
    requires ShortNames(db)
    ensures forall k :: 0 <= k < |Zones(db, name)| ==> |Wire(Zones(db, name)[k].host)| <= DATA_KEPT
  {
    hide Wire, SuffixTest;
  }

  /** The first server's domain is the name of the question or what follows one of its labels. */
  lemma {:induction false} DomainIsLegal(db: seq<DnsRec>, ls: seq<Label>) returns (ds: seq<Label>)
    requires LegalName(ls) && Zones(db, Text(ls)) != []
    ensures LegalName(ds) && Zones(db, Text(ls))[0].domain == Text(ds)
  {
    hide Text, LegalName, SuffixTest, Wire;
    var i := Servers(db, Text(ls), 0)[0];
    ds := SuffixIsLegal(ls, db[i].owner);
  }

  lemma {:induction false} SuffixIsLegal(ls: seq<Label>, domain: seq<byte>) returns (ds: seq<Label>)
    requires LegalName(ls) && SuffixTest(Text(ls), domain)
    ensures LegalName(ds) && domain == Text(ds)
  {
    var name, k := Text(ls), |Text(ls)| - |domain|;
    ds := ls;
    if k > 0 {
      assert LegalLabel(ls[0]);
      var n := |ls[0]|;
      assert forall i :: 0 <= i < n ==> name[i] == ls[0][i] && ls[0][i] in ls[0];
      assert |ls| > 1 && k - 1 >= n by {
        TextOfLegal(ls);
      }
      var rest := ls[1..];
      assert name[n + 1..] == Text(rest);
      assert name[k..] == Text(rest)[k - n - 1..];
      if k - 1 == n {
        ds := rest;
      } else {
        assert Text(rest)[k - n - 2] == name[k - 1];
        ds := SuffixIsLegal(rest, domain);
      }
    }
  }

  /** Every reply of the local master parses back to exactly the records it was made of, up to its last
      octet, if and only if the reader keeps all its data, and it has no pointer to an owner or the
      octets those pointers lead to, AuthorityStart modulo 64, spell its name; which they do if the
      section starts before 64. */
  lemma {:induction false} LocalRepliesReadBackIff(db: seq<DnsRec>, flags: nat, q: Question, ls: seq<Label>, msg: seq<byte>)
    requires MasterReply(db, flags, q).Some?
    requires LegalName(ls) && q.name == Text(ls) && q.qtype < 0x1_0000 && q.qclass < 0x1_0000
    requires var r := MasterReply(db, flags, q).value;
      |msg| == |ReplyOctets(r)| <= ASSEMBLY_SIZE && msg[2..] == ReplyOctets(r)[2..]
    ensures var r := MasterReply(db, flags, q).value;
      && r.question == q && ReadU16(msg, 2) == r.flags % 0x1_0000
      && (ReadsBack(msg, r) <==> DataKept(r) && PointersSpell(msg, AuthorityStart(r), r.authority))
      && (DataKept(r) && (|r.authority| <= 1 || AuthorityStart(r) < 64) ==> ReadsBack(msg, r))
  {
    hide ReplyOctets, MasterReply, AnswersOctets, AuthorityOctets, AuthorityStart, AnswerRecords, AuthorityRecords,
      LegalName, Text, Wire, Zones, MessageAt, ReadsBack, Spells, DataKept;
    var r := MasterReply(db, flags, q).value;
    ReplyShape(db, flags, q);
    ReplySize(r);
    AnswersTakeRoom(q.qtype, r.answers);
    ZonesTakeRoom(AuthorityStart(r), r.authority);
    var ds := ls;
    if r.authority != [] {
      ds := DomainIsLegal(db, ls);
    }
    FlagsReadBack(msg, r);
    AssembledReadsBackIff(msg, r, ls, ds);
    if DataKept(r) && AuthorityStart(r) < 64 {
      KeptIsReadable(r, ls, ds);
      EarlyAuthorityIsSpelled(msg, r, ls, ds);
    }
  }

  lemma {:induction false} KeptIsReadable(r: Reply, ls: seq<Label>, ds: seq<Label>)
    requires Assembled(r, ls, ds) && DataKept(r)
    ensures Readable(r, ls, ds)
  {
    hide Wire, LegalName, Text;
  }

  /** From the client's packet to what it reads: whatever the case of its question, the reply carries
      it in lower case, parses back to it, and reads back as the records it was made of under the
      condition above. */
  lemma {:induction false} ClientReadsReplyIff(db: seq<DnsRec>, request: seq<byte>, leftover: seq<byte>, ls: seq<Label>,
                                               reply: seq<byte>, later: seq<byte>)
    requires DATA_BEGIN <= |request| && NameAt(request, DATA_BEGIN) == Some(ls) && LegalName(ls)
    requires Lookup(db, request, leftover).Some?
    requires var r := Lookup(db, request, leftover).value;
      |ReplyOctets(r)| <= ASSEMBLY_SIZE && reply == request[..2] + ReplyOctets(r)[2..]
    ensures var r := Lookup(db, request, leftover).value;
      && r.question.name == Lower(Text(ls)) && Parsed(reply, later) == Some(ParsedQuery(r.flags, r.question))
      && (ReadsBack(reply, r) <==> DataKept(r) && PointersSpell(reply, AuthorityStart(r), r.authority))
      && (DataKept(r) && (|r.authority| <= 1 || AuthorityStart(r) < 64) ==> ReadsBack(reply, r))
  {
    hide ReplyOctets, MasterReply, AuthorityStart, Text, Wire, MessageAt, ReadsBack, Spells, QueryName,
      QuestionOctets, Holds, AnswersOctets, AuthorityOctets, NameAt, CountOctets, PointersSpell, ReadU16, DataKept;
    var r := Lookup(db, request, leftover).value;
    var p := Parsed(request, leftover).value;
    var lower := LowerLabels(ls);
    RequestParsed(request, leftover, ls);
    QueryNameOfLegal(ls);
    LowerKeepsLegal(ls);
    assert reply[2..] == ReplyOctets(r)[2..];
    LocalRepliesReadBackIff(db, p.flags, p.question, lower, reply);
    ReplyParsesBack(db, p.flags, p.question, lower, reply, later);
  }

  lemma {:induction false} RequestParsed(request: seq<byte>, leftover: seq<byte>, ls: seq<Label>)
    requires DATA_BEGIN <= |request| && NameAt(request, DATA_BEGIN) == Some(ls) && ls != []
    requires Parsed(request, leftover).Some?
    ensures var q := Parsed(request, leftover).value.question;
      q.name == QueryName(Text(ls)) && q.qtype < 0x1_0000 && q.qclass < 0x1_0000
  {
    hide NameAt, QueryName, Text;
  }

  lemma {:induction false} ReplyParsesBack(db: seq<DnsRec>, flags: nat, q: Question, ls: seq<Label>, msg: seq<byte>,
                                           leftover: seq<byte>)
    requires MasterReply(db, flags, q).Some?
    requires LegalName(ls) && q.name == Text(ls) && Lower(q.name) == q.name && q.qtype < 0x1_0000 && q.qclass < 0x1_0000
    requires var r := MasterReply(db, flags, q).value;
      |msg| == |ReplyOctets(r)| <= ASSEMBLY_SIZE && msg[2..] == ReplyOctets(r)[2..]
    ensures Parsed(msg, leftover) == Some(ParsedQuery(MasterReply(db, flags, q).value.flags, q))
  {
    hide ReplyOctets, AuthorityStart, Text, Wire, MasterReply, QuestionOctets, Holds, AnswersOctets,
      AuthorityOctets, CountOctets, ReadU16, Parsed, Zones;
    var r := MasterReply(db, flags, q).value;
    ReplyShape(db, flags, q);
    ReplySize(r);
    AnswersTakeRoom(q.qtype, r.answers);
    ZonesTakeRoom(AuthorityStart(r), r.authority);
    ReplySections(msg, r);
    FlagsReadBack(msg, r);
    ReplyFlags(db, flags, q);
    QuestionParsesBack(msg, q, ls, leftover);
  }

  lemma {:induction false} ReplyFlags(db: seq<DnsRec>, flags: nat, q: Question)
    requires MasterReply(db, flags, q).Some?
    ensures MasterReply(db, flags, q).value.flags % 0x1_0000 == MasterReply(db, flags, q).value.flags
  {
    hide Wire, U32, Zones, SuffixTest, AfterFirstDot, StandardQuery, First, HostOctets;
  }

  // ---------------------------------------------------------------------------
  // A reply that is misread.
  // ---------------------------------------------------------------------------

  /** "aaaaaaaaaaaaaaaaaaaaaaaaaaaa.b", in two labels. */
  const LONG_LABEL: Label := seq(28, _ => 97)
  const LONG_NAME: seq<byte> := LONG_LABEL + [DOT] + [98]

  /** Its address, and two servers of the domain "b". */
  const TWO_SERVERS: seq<DnsRec> := [NameIp(LONG_NAME, ReverseDotted(1), 1), Dns([98], [99]), Dns([98], [100])]

  lemma {:induction false} LongNameIsLegal()
    ensures LegalName([LONG_LABEL, [98]]) && Text([LONG_LABEL, [98]]) == LONG_NAME && |Wire(LONG_NAME)| == 32
    ensures LegalName([[98]]) && Text([[98]]) == [98] && |Wire([99])| == |Wire([100])| == 3
  {
  }

  lemma {:induction false} ServersOfLongName()
    ensures Zones(TWO_SERVERS, LONG_NAME) == [Zone([98], [99]), Zone([98], [100])]
    ensures First(TWO_SERVERS, NameKey(LONG_NAME)) == Some(TWO_SERVERS[0])
  {
    var db := TWO_SERVERS;
    assert LONG_NAME[29..] == [98] && LONG_NAME[28] == DOT;
    assert Servers(db, LONG_NAME, 3) == [];
    assert Servers(db, LONG_NAME, 2) == [2];
    assert Servers(db, LONG_NAME, 1) == [1, 2];
    assert Servers(db, LONG_NAME, 0) == [1, 2];
    assert db[..2][..1] == [db[0]];
    assert db[..2] == [db[0], db[1]];
    assert First([db[0]], NameKey(LONG_NAME)) == Some(db[0]);
    assert First(db[..2], NameKey(LONG_NAME)) == Some(db[0]);
  }

  lemma {:induction false} LongNameReply()
    ensures var q := Question(LONG_NAME, TYPE_A, CLASS_INET);
      var r := Reply(q, Flags(true), [U32(1)], [Zone([98], [99]), Zone([98], [100])]);
      MasterReply(TWO_SERVERS, 0, q) == Some(r) && AuthorityStart(r) == 64
      && |ReplyOctets(r)| == 64 + |AuthorityOctets(64, r.authority)|
  {
    hide Zones, First, AuthorityOctets, Wire, U32;
    var q := Question(LONG_NAME, TYPE_A, CLASS_INET);
    ServersOfLongName();
    LongNameIsLegal();
    assert [U32(1)][..0] == [];
    assert |AnswersOctets(TYPE_A, [U32(1)])| == 16;
  }

  /** The address of the long name is asked for with an ID whose first octet is zero: the owner of
      the second server is not read back. */
  lemma {:induction false} LongNameIsMisread(id: byte, reply: seq<byte>)
    requires var r := MasterReply(TWO_SERVERS, 0, Question(LONG_NAME, TYPE_A, CLASS_INET));
      r.Some? && reply == [0, id] + ReplyOctets(r.value)[2..]
    ensures !ReadsBack(reply, MasterReply(TWO_SERVERS, 0, Question(LONG_NAME, TYPE_A, CLASS_INET)).value)
  {
    hide MasterReply, AuthorityStart, ReplyOctets, Wire, LegalName, Text, ReadsBack, AuthorityOctets, U32;
    LongNameReply();
    LongNameIsLegal();
    var r := MasterReply(TWO_SERVERS, 0, Question(LONG_NAME, TYPE_A, CLASS_INET)).value;
    assert reply[2..] == ReplyOctets(r)[2..];
    LateAuthorityIsMisread(reply, r, [LONG_LABEL, [98]], [[98]]);
  }

  // ---------------------------------------------------------------------------
  // A reply that does not fit.
  // ---------------------------------------------------------------------------

  /** n servers of the domain "b". */
  function ManyServers(n: nat): seq<DnsRec> {
    seq(n, i => Dns([98], [99]))
  }

  lemma {:induction false} AllServe(n: nat, from: nat)
    requires from <= n
    ensures |Servers(ManyServers(n), [98], from)| == n - from
    decreases n - from
  {
    if from < n {
      AllServe(n, from + 1);
    }
  }

  /** Fifty of them are more than the assembly buffer holds. */
  lemma {:induction false} FiftyServersDoNotFit()
    ensures var q := Question([98], TYPE_NS, CLASS_INET); var r := MasterReply(ManyServers(50), 0, q);
      r.Some? && |ReplyOctets(r.value)| > ASSEMBLY_SIZE
  {
    hide AnswersOctets, Servers, HostOctets;
    var db, q := ManyServers(50), Question([98], TYPE_NS, CLASS_INET);
    AllServe(50, 0);
    assert |Zones(db, q.name)| == 50;
    var r := MasterReply(db, 0, q).value;
    AnswersTakeRoom(q.qtype, r.answers);
  }
}
