/** Which reply the local master gives (master_lookup in master.c), record by record. */
module LocalReply {
  import opened Octets
  import opened NameWalk
  import opened Records
  import opened NameCodec
  import opened ReplyFormat
  import opened Assembly
  import opened Master

  // ---------------------------------------------------------------------------
  // The reply the database calls for.
  // ---------------------------------------------------------------------------

  /** GET_OPCODE of the flags is zero; its mask leaves out bit 12. */
  predicate StandardQuery(flags: nat) {
    flags < 0x2000 && flags / 0x800 % 2 == 0
  }

  function Flags(authoritative: bool): nat {
    if authoritative then FLAG_QR + FLAG_AA else FLAG_QR
  }

  function HostOctets(zones: seq<Zone>): (h: seq<seq<byte>>)
    ensures |h| == |zones|
  {
    seq(|zones|, k requires 0 <= k < |zones| => Wire(zones[k].host))
  }

  /** An answer, with the name servers of the question's name as authority. */
  function Positive(db: seq<DnsRec>, q: Question, rdata: seq<byte>): Reply {
    Reply(q, Flags(Zones(db, q.name) != []), [rdata], Zones(db, q.name))
  }

  /** The master has authority for the name or for what follows its first label. */
  predicate Authoritative(db: seq<DnsRec>, name: seq<byte>) {
    && AfterFirstDot(name).Some?
    && (Authority(name) in db || Authority(AfterFirstDot(name).value) in db)
  }

  function Negative(db: seq<DnsRec>, q: Question): Option<Reply> {
    if Authoritative(db, q.name) then Some(Reply(q, Flags(true), [], [])) else None
  }

  /** The address part of a reverse name. */
  function ReverseAddress(name: seq<byte>): Option<seq<byte>> {
    var k := |name| - |ARPA_DOMAIN|;
    if k < 0 || name[k..] != ARPA_DOMAIN then None else Some(name[..k])
  }

  function MasterReply(db: seq<DnsRec>, flags: nat, q: Question): Option<Reply> {
    if q.qclass != CLASS_INET || !StandardQuery(flags) then None
    else if q.qtype == TYPE_PTR then
      match ReverseAddress(q.name)
      case None => None
      case Some(arpa) =>
        match First(db, ArpaKey(arpa))
        case Some(rec) => Some(Positive(db, q, Wire(rec.owner)))
        case None => Negative(db, q)
    else if q.qtype == TYPE_A then
      match First(db, NameKey(q.name))
      case Some(rec) => if rec.NameIp? && rec.ip < 0x1_0000_0000 then Some(Positive(db, q, U32(rec.ip))) else None
      case None => Negative(db, q)
    else if q.qtype == TYPE_NS then
      if Zones(db, q.name) != [] then Some(Reply(q, Flags(true), HostOctets(Zones(db, q.name)), []))
      else Negative(db, q)
    else None
  }

  // ---------------------------------------------------------------------------
  // What it says.
  // ---------------------------------------------------------------------------

  lemma {:induction false} FirstIs(db: seq<DnsRec>, key: Key, i: nat)
    requires i < |db| && Is(db[i], key) && forall j :: 0 <= j < i ==> !Is(db[j], key)
    ensures First(db, key) == Some(db[i])
  {
    FirstIsFirst(db, key);
  }

  /** The domains and hosts of the zone are those of its records. */
  lemma {:induction false} ZonesAreRecords(db: seq<DnsRec>, name: seq<byte>)
    ensures var s, z := Servers(db, name, 0), Zones(db, name);
      |z| == |s| && forall k :: 0 <= k < |s| ==> db[s[k]] == Dns(z[k].domain, z[k].host)
    ensures Zones(db, name) == [] <==> forall rec :: rec in db && rec.Dns? ==> !Below(name, rec.owner)
  {
    hide Below;
    var s := Servers(db, name, 0);
    ServersAreExactlyTheZone(db, name, 0);
    if rec :| rec in db && rec.Dns? && Below(name, rec.owner) {
      var i :| 0 <= i < |db| && db[i] == rec;
      assert i in s;
    }
    if s != [] {
      assert s[0] in s && db[s[0]] in db;
    }
  }

  /** The address of a name is that of its first record; the name servers come with it, and the reply
      is authoritative if there are any. */
  lemma {:induction false} AddressIsGiven(db: seq<DnsRec>, flags: nat, q: Question, i: nat, a: byte, b: byte, c: byte, d: byte)
    requires flags < 0x2000 && flags / 0x800 % 2 == 0 && q.qclass == 1 && q.qtype == 1
    requires i < |db| && db[i].NameIp? && db[i].owner == q.name
    requires db[i].ip == a * 0x100_0000 + b * 0x1_0000 + c * 0x100 + d
    requires forall j :: 0 <= j < i && db[j].NameIp? ==> db[j].owner != q.name
    ensures var zone := Zones(db, q.name);
      MasterReply(db, flags, q) == Some(Reply(q, if zone == [] then 0x8000 else 0x8400, [[a, b, c, d]], zone))
  {
    hide Zones, U32;
    FirstIs(db, NameKey(q.name), i);
    U32Octets(a, b, c, d);
  }

  /** The name of an address is the owner of its first record. */
  lemma {:induction false} NameIsGiven(db: seq<DnsRec>, flags: nat, q: Question, ip: nat, i: nat)
    requires flags < 0x2000 && flags / 0x800 % 2 == 0 && q.qclass == 1 && q.qtype == 12
    requires ip < 0x1_0000_0000 && q.name == ReverseDotted(ip) + Ascii(".in-addr.arpa")
    requires forall j :: 0 <= j < |db| ==> Stored(db[j])
    requires i < |db| && db[i].NameIp? && db[i].ip == ip && forall j :: 0 <= j < i && db[j].NameIp? ==> db[j].ip != ip
    ensures var zone := Zones(db, q.name);
      MasterReply(db, flags, q) ==
        Some(Reply(q, if zone == [] then 0x8000 else 0x8400, [Wire(db[i].owner)], zone))
  {
    hide Zones, ReverseDotted, Wire, Stored;
    forall j | 0 <= j < |db| ensures Is(db[j], ArpaKey(ReverseDotted(ip))) <==> db[j].NameIp? && db[j].ip == ip {
      ReverseLookupIsByAddress(db[j], ip);
    }
    FirstIs(db, ArpaKey(ReverseDotted(ip)), i);
    AddressPart(ReverseDotted(ip));
  }

  lemma {:induction false} AddressPart(a: seq<byte>)
    ensures ReverseAddress(a + Ascii(".in-addr.arpa")) == Some(a)
  {
    var s := Ascii(".in-addr.arpa");
    assert s == ARPA_DOMAIN;
    assert (a + s)[|a|..] == s && (a + s)[..|a|] == a;
  }

  /** Every server of the zone is named, in order; the reply is authoritative. */
  lemma {:induction false} ServersAreGiven(db: seq<DnsRec>, flags: nat, q: Question)
    requires flags < 0x2000 && flags / 0x800 % 2 == 0 && q.qclass == 1 && q.qtype == 2 && Zones(db, q.name) != []
    ensures var r, zone := MasterReply(db, flags, q), Zones(db, q.name);
      && r.Some? && r.value.question == q && r.value.flags == 0x8400 && r.value.authority == []
      && |r.value.answers| == |zone| && forall k :: 0 <= k < |zone| ==> r.value.answers[k] == Wire(zone[k].host)
  {
    hide Zones, Wire;
  }

  /** Some record answers the question. */
  ghost predicate Known(db: seq<DnsRec>, q: Question) {
    exists rec :: rec in db &&
      if q.qtype == 1 then rec.NameIp? && rec.owner == q.name
      else if q.qtype == 12 then rec.NameIp? && q.name == rec.arpa + Ascii(".in-addr.arpa")
      else q.qtype == 2 && rec.Dns? && Below(q.name, rec.owner)
  }

  /** What follows the first dot. */
  ghost predicate IsParent(name: seq<byte>, parent: seq<byte>) {
    exists first: seq<byte> :: 46 !in first && name == first + [46] + parent
  }

  /** The name has a dot, and it or its parent is an authority. */
  ghost predicate Governed(db: seq<DnsRec>, name: seq<byte>) {
    exists parent: seq<byte> :: IsParent(name, parent) && (Authority(name) in db || Authority(parent) in db)
  }

  lemma {:induction false} ParentIff(name: seq<byte>, parent: seq<byte>)
    ensures AfterFirstDot(name) == Some(parent) <==> IsParent(name, parent)
  {
    hide LabelLen;
    var n := LabelLen(name);
    if n < |name| {
      assert 46 !in name[..n] && name == name[..n] + [46] + name[n + 1..];
    }
    if first: seq<byte> :| 46 !in first && name == first + [46] + parent {
      FirstDotSplits(name, first, parent);
    }
  }

  lemma {:induction false} GovernedIff(db: seq<DnsRec>, name: seq<byte>)
    ensures Authoritative(db, name) <==> Governed(db, name)
  {
    hide AfterFirstDot, IsParent;
    forall parent: seq<byte> ensures AfterFirstDot(name) == Some(parent) <==> IsParent(name, parent) {
      ParentIff(name, parent);
    }
  }

  /** The name is a reverse name, as far as its end shows. */
  ghost predicate IsReverse(name: seq<byte>) {
    exists a: seq<byte> :: name == a + Ascii(".in-addr.arpa")
  }

  lemma {:induction false} ReverseAddressIff(name: seq<byte>, a: seq<byte>)
    ensures ReverseAddress(name) == Some(a) <==> name == a + Ascii(".in-addr.arpa")
    ensures ReverseAddress(name).Some? <==> IsReverse(name)
  {
    AddressPart(a);
    forall b: seq<byte> ensures ReverseAddress(b + Ascii(".in-addr.arpa")) == Some(b) {
      AddressPart(b);
    }
    var k := |name| - |ARPA_DOMAIN|;
    if k >= 0 && name[k..] == ARPA_DOMAIN {
      assert Ascii(".in-addr.arpa") == ARPA_DOMAIN;
      assert name == name[..k] + Ascii(".in-addr.arpa");
    }
  }

  lemma {:induction false} FoundIff(db: seq<DnsRec>, key: Key)
    ensures First(db, key).Some? <==> exists rec :: rec in db && Is(rec, key)
    ensures First(db, key).Some? ==> First(db, key).value in db && Is(First(db, key).value, key)
  {
    hide Is;
    FirstIsFirst(db, key);
  }

  /** The questions the master looks into: class IN, opcode zero, and type A, NS or PTR. */
  ghost predicate Considered(flags: nat, q: Question) {
    && q.qclass == 1 && flags < 0x2000 && flags / 0x800 % 2 == 0
    && (q.qtype == 1 || q.qtype == 2 || (q.qtype == 12 && IsReverse(q.name)))
  }

  lemma {:induction false} KnownIff(db: seq<DnsRec>, q: Question)
    ensures q.qtype == 1 ==> (Known(db, q) <==> First(db, NameKey(q.name)).Some?)
    ensures q.qtype == 12 ==>
      (Known(db, q) <==> ReverseAddress(q.name).Some? && First(db, ArpaKey(ReverseAddress(q.name).value)).Some?)
    ensures q.qtype == 2 ==> (Known(db, q) <==> Zones(db, q.name) != [])
    ensures Known(db, q) && q.qtype == 12 ==> IsReverse(q.name)
  {
    hide Zones, Below, First, ReverseAddress;
    ZonesAreRecords(db, q.name);
    FoundIff(db, NameKey(q.name));
    forall a: seq<byte> ensures ReverseAddress(q.name) == Some(a) <==> q.name == a + Ascii(".in-addr.arpa") {
      ReverseAddressIff(q.name, a);
    }
    if ReverseAddress(q.name).Some? {
      FoundIff(db, ArpaKey(ReverseAddress(q.name).value));
    }
  }

  /** There is a reply exactly if a record answers the question, or the master has authority; and it is
      empty, and authoritative, exactly in the second case. */
  lemma {:induction false} ReplyIff(db: seq<DnsRec>, flags: nat, q: Question)
    requires forall j :: 0 <= j < |db| ==> Stored(db[j])
    ensures MasterReply(db, flags, q).Some? <==> Considered(flags, q) && (Known(db, q) || Governed(db, q.name))
    ensures MasterReply(db, flags, q) == Some(Reply(q, 0x8400, [], [])) <==>
      Considered(flags, q) && !Known(db, q) && Governed(db, q.name)
  {
    hide Known, Governed, First, ReverseAddress, Zones, Authoritative, IsReverse, ReverseDotted, Wire, U32;
    KnownIff(db, q);
    GovernedIff(db, q.name);
    ReverseAddressIff(q.name, []);
    FoundIff(db, NameKey(q.name));
  }

  lemma {:induction false} HostLanReverse()
    ensures ReverseDotted(0x0A00_0001) == Ascii("1.0.0.10")
  {
    hide ReverseDotted;
    ReverseOfOctets(10, 0, 0, 1);
    assert Decimal(1) + [46] + Decimal(0) + [46] + Decimal(0) + [46] + Decimal(10) == [49, 46, 48, 46, 48, 46, 49, 48];
  }

  lemma {:induction false} HostLanPtr()
    ensures Ascii("1.0.0.10") + Ascii(".in-addr.arpa") == Ascii("1.0.0.10.in-addr.arpa")
  {
  }

  lemma {:induction false} HostLanSplit()
    ensures Ascii("1.0.0.10.in-addr.arpa") == Ascii("1") + [46] + Ascii("0.0.10.in-addr.arpa")
    ensures 46 !in Ascii("1")
  {
  }

  lemma {:induction false} HostLanZone()
    ensures ReverseZone(Ascii("1.0.0.10")) == Some(Ascii("0.0.10.in-addr.arpa"))
  {
    hide AfterFirstDot;
    HostLanPtr();
    HostLanSplit();
    assert Ascii(".in-addr.arpa") == ARPA_DOMAIN;
    FirstDotSplits(Ascii("1.0.0.10.in-addr.arpa"), Ascii("1"), Ascii("0.0.10.in-addr.arpa"));
  }

  lemma {:induction false} HostLanWire()
    ensures Wire(Ascii("host.lan")) == [4] + Ascii("host") + [3] + Ascii("lan") + [0]
  {
    hide Wire;
    var host, lan := Ascii("host"), Ascii("lan");
    assert Ascii("host.lan") == host + ([46] + lan);
    WireStep(host, lan);
    WireStep(lan, []);
  }

  /** host.lan at 10.0.0.1, and the authority for its reverse zone. */
  lemma {:induction false} HostLan(flags: nat)
    requires flags < 0x800
    ensures var db := [NameIp(Ascii("host.lan"), Ascii("1.0.0.10"), 0x0A00_0001), Authority(Ascii("0.0.10.in-addr.arpa"))];
      var ptr := Question(Ascii("1.0.0.10.in-addr.arpa"), 12, 1);
      && Stored(db[0]) && ReverseZone(db[0].arpa) == Some(db[1].owner)
      && MasterReply(db, flags, ptr) == Some(Reply(ptr, 0x8000, [[4] + Ascii("host") + [3] + Ascii("lan") + [0]], []))
      && MasterReply(db, flags, ptr.(qtype := 2)) == Some(Reply(ptr.(qtype := 2), 0x8400, [], []))
  {
    hide Wire, ReverseDotted, ReverseZone, MasterReply, Zones, Ascii;
    HostLanReverse();
    HostLanPtr();
    HostLanSplit();
    HostLanZone();
    HostLanWire();
    var db := [NameIp(Ascii("host.lan"), Ascii("1.0.0.10"), 0x0A00_0001), Authority(Ascii("0.0.10.in-addr.arpa"))];
    var ptr := Question(Ascii("1.0.0.10.in-addr.arpa"), 12, 1);
    HostLanIsStored();
    ZonesAreRecords(db, ptr.name);
    NameIsGiven(db, flags, ptr, 0x0A00_0001, 0);
    var ns := ptr.(qtype := 2);
    assert Governed(db, ns.name) by {
      assert IsParent(ns.name, Ascii("0.0.10.in-addr.arpa"));
    }
    ReplyIff(db, flags, ns);
  }

  lemma {:induction false} HostLanIsStored()
    ensures Stored(NameIp(Ascii("host.lan"), Ascii("1.0.0.10"), 0x0A00_0001)) && Stored(Authority(Ascii("0.0.10.in-addr.arpa")))
  {
    hide ReverseDotted;
    HostLanReverse();
  }

  lemma {:induction false} WireOfSix(a: Label, b: Label, c: Label, d: Label, e: Label, f: Label)
    requires LegalLabel(a) && LegalLabel(b) && LegalLabel(c) && LegalLabel(d) && LegalLabel(e) && LegalLabel(f)
    ensures Wire(a + ([46] + (b + ([46] + (c + ([46] + (d + ([46] + (e + ([46] + f)))))))))) ==
      [|a|] + a + [|b|] + b + [|c|] + c + [|d|] + d + [|e|] + e + [|f|] + f + [0]
  {
    hide Wire, LegalLabel;
    WireStep(a, b + ([46] + (c + ([46] + (d + ([46] + (e + ([46] + f))))))));
    WireStep(b, c + ([46] + (d + ([46] + (e + ([46] + f))))));
    WireStep(c, d + ([46] + (e + ([46] + f))));
    WireStep(d, e + ([46] + f));
    WireStep(e, f);
    WireStep(f, []);
  }

  lemma {:induction false} PtrText()
    ensures Ascii("1.0.0.10.in-addr.arpa") ==
      Ascii("1") + ([46] + (Ascii("0") + ([46] + (Ascii("0") + ([46] + (Ascii("10")
        + ([46] + (Ascii("in-addr") + ([46] + Ascii("arpa"))))))))))
  {
  }

  lemma {:induction false} PtrWire()
    ensures Wire(Ascii("1.0.0.10.in-addr.arpa")) ==
      [1] + Ascii("1") + [1] + Ascii("0") + [1] + Ascii("0") + [2] + Ascii("10") + [7] + Ascii("in-addr") + [4] + Ascii("arpa") + [0]
  {
    hide Wire;
    PtrText();
    WireOfSix(Ascii("1"), Ascii("0"), Ascii("0"), Ascii("10"), Ascii("in-addr"), Ascii("arpa"));
  }

  /** The octets of that reply behind its ID: flags, one question, one answer; name, PTR, IN; a pointer to
      the name, PTR, IN, an hour, ten octets of data. */
  lemma {:induction false} HostLanOctets()
    ensures var ptr := Question(Ascii("1.0.0.10.in-addr.arpa"), 12, 1);
      var host: seq<byte> := [4] + Ascii("host") + [3] + Ascii("lan") + [0];
      ReplyOctets(Reply(ptr, 0x8000, [host], []))[2..] ==
        [0x80, 0, 0, 1, 0, 1, 0, 0, 0, 0] + Wire(ptr.name) + [0, 12, 0, 1]
        + [0xC0, 12, 0, 12, 0, 1, 0, 0, 0x0E, 0x10, 0, 10] + host
  {
    hide Wire, AuthorityStart;
    var ptr := Question(Ascii("1.0.0.10.in-addr.arpa"), 12, 1);
    var host: seq<byte> := [4] + Ascii("host") + [3] + Ascii("lan") + [0];
    assert [host][..0] == [] && |host| == 10;
    assert AnswersOctets(12, [host]) == [0xC0, 12, 0, 12, 0, 1, 0, 0, 0x0E, 0x10, 0, 10] + host;
    assert QuestionOctets(ptr) == Wire(ptr.name) + [0, 12, 0, 1];
  }
}
