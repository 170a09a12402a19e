/** The local master (master.c): its record array, the lookups, the automatic authority records
    and the replies it assembles. */
module Master {
  import opened Octets
  import opened NameCodec
  import opened ReplyFormat
  import opened Lib

  // ---------------------------------------------------------------------------
  // Records and what the lookups mean.
  // ---------------------------------------------------------------------------

  datatype DnsRec =
    | NameIp(owner: seq<byte>, arpa: seq<byte>, ip: nat)
    | Dns(owner: seq<byte>, host: seq<byte>)
    | Authority(owner: seq<byte>)

  /** What a lookup asks for. */
  datatype Key = NameKey(name: seq<byte>) | ArpaKey(arpa: seq<byte>) | AuthorityKey(domain: seq<byte>)

  predicate Is(rec: DnsRec, key: Key) {
    match key
    case NameKey(s) => rec.NameIp? && rec.owner == s
    case ArpaKey(s) => rec.NameIp? && rec.arpa == s
    case AuthorityKey(s) => rec.Authority? && rec.owner == s
  }

  /** The first record the key asks for. */
  function First(db: seq<DnsRec>, key: Key): Option<DnsRec> {
    if db == [] then None
    else if First(db[..|db| - 1], key).Some? then First(db[..|db| - 1], key)
    else if Is(db[|db| - 1], key) then Some(db[|db| - 1])
    else None
  }

  lemma {:induction false} FirstIsFirst(db: seq<DnsRec>, key: Key)
    ensures First(db, key).None? <==> forall i :: 0 <= i < |db| ==> !Is(db[i], key)
    ensures First(db, key).Some? ==>
      exists i :: 0 <= i < |db| && First(db, key).value == db[i] && Is(db[i], key) && forall j :: 0 <= j < i ==> !Is(db[j], key)
  {
    if db != [] {
      var front := db[..|db| - 1];
      FirstIsFirst(front, key);
      assert forall i :: 0 <= i < |front| ==> front[i] == db[i];
    }
  }

  function Decimal(n: nat): (s: seq<byte>)
    requires n < 256
    ensures forall k :: 0 <= k < |s| ==> 48 <= s[k] <= 57
  {
    if n < 10 then [48 + n]
    else if n < 100 then [48 + n / 10, 48 + n % 10]
    else [48 + n / 100, 48 + n / 10 % 10, 48 + n % 10]
  }

  /** inet_ntoa of an address with its octets swapped: the reverse notation. */
  function ReverseDotted(ip: nat): (s: seq<byte>)
    requires ip < 0x1_0000_0000
    ensures Lower(s) == s
  {
    var b, c, d := ip / 256, ip / 256 / 256, ip / 256 / 256 / 256;
    Decimal(ip % 256) + [DOT] + (Decimal(b % 256) + [DOT] + (Decimal(c % 256) + [DOT] + Decimal(d % 256)))
  }

  lemma {:induction false} SplitAtDot(a: seq<byte>, x: seq<byte>, b: seq<byte>, y: seq<byte>)
    requires DOT !in a && DOT !in b && a + [DOT] + x == b + [DOT] + y
    ensures a == b && x == y
  {
    var s, t := a + [DOT] + x, b + [DOT] + y;
    assert s == a + ([DOT] + x) && t == b + ([DOT] + y);
    LabelLenAt(a, [DOT] + x);
    LabelLenAt(b, [DOT] + y);
    assert s[..|a|] == a && t[..|b|] == b;
    assert s[|a| + 1..] == x && t[|b| + 1..] == y;
  }

  lemma {:induction false} DecimalIsExact(m: nat, n: nat)
    requires m < 256 && n < 256 && Decimal(m) == Decimal(n)
    ensures m == n
  {
    assert m == m / 100 * 100 + m / 10 % 10 * 10 + m % 10;
    assert n == n / 100 * 100 + n / 10 % 10 * 10 + n % 10;
    assert Decimal(m)[0] == Decimal(n)[0];
    assert |Decimal(m)| > 1 ==> Decimal(m)[1] == Decimal(n)[1];
    assert |Decimal(m)| > 2 ==> Decimal(m)[2] == Decimal(n)[2];
  }

  /** A number from 0 to 255 in decimal, without leading zeros. */
  lemma {:induction false} DecimalDigits(n: nat)
    requires n < 256
    ensures var s := Decimal(n);
      && 1 <= |s| <= 3 && (|s| > 1 ==> s[0] != 48)
      && n == if |s| == 1 then s[0] - 48
              else if |s| == 2 then (s[0] - 48) * 10 + (s[1] - 48)
              else (s[0] - 48) * 100 + (s[1] - 48) * 10 + (s[2] - 48)
  {
  }

  /** The reverse notation of the address a.b.c.d is d.c.b.a. */
  lemma {:induction false} ReverseOfOctets(a: byte, b: byte, c: byte, d: byte)
    ensures ReverseDotted(a * 0x100_0000 + b * 0x1_0000 + c * 0x100 + d)
      == Decimal(d) + [46] + Decimal(c) + [46] + Decimal(b) + [46] + Decimal(a)
  {
    hide Decimal;
    var ip := a * 0x100_0000 + b * 0x1_0000 + c * 0x100 + d;
    assert ip / 256 == a * 0x1_0000 + b * 0x100 + c;
    assert ip / 256 / 256 == a * 0x100 + b;
  }

  /** Different addresses have different reverse names. */
  lemma {:induction false} ReverseIsExact(a: nat, b: nat)
    requires a < 0x1_0000_0000 && b < 0x1_0000_0000 && ReverseDotted(a) == ReverseDotted(b)
    ensures a == b
  {
    hide Decimal;
    var a1, a2, a3 := a / 256, a / 256 / 256, a / 256 / 256 / 256;
    var b1, b2, b3 := b / 256, b / 256 / 256, b / 256 / 256 / 256;
    var d0, d1, d2, d3 := Decimal(a % 256), Decimal(a1 % 256), Decimal(a2 % 256), Decimal(a3 % 256);
    var e0, e1, e2, e3 := Decimal(b % 256), Decimal(b1 % 256), Decimal(b2 % 256), Decimal(b3 % 256);
    SplitAtDot(d0, d1 + [DOT] + (d2 + [DOT] + d3), e0, e1 + [DOT] + (e2 + [DOT] + e3));
    SplitAtDot(d1, d2 + [DOT] + d3, e1, e2 + [DOT] + e3);
    SplitAtDot(d2, d3, e2, e3);
    DecimalIsExact(a % 256, b % 256);
    DecimalIsExact(a1 % 256, b1 % 256);
    DecimalIsExact(a2 % 256, b2 % 256);
    DecimalIsExact(a3 % 256, b3 % 256);
  }

  /** So a reverse lookup asks for the address. */
  lemma {:induction false} ReverseLookupIsByAddress(rec: DnsRec, ip: nat)
    requires Stored(rec) && ip < 0x1_0000_0000
    ensures Is(rec, ArpaKey(ReverseDotted(ip))) <==> rec.NameIp? && rec.ip == ip
  {
    hide ReverseDotted;
    if Is(rec, ArpaKey(ReverseDotted(ip))) {
      ReverseIsExact(rec.ip, ip);
    }
  }

  /** mkstring stores everything in lower case; addresses are 32 bit numbers, stored with their
      reverse names. */
  predicate Stored(rec: DnsRec) {
    && Lower(rec.owner) == rec.owner
    && (rec.NameIp? ==> rec.ip < 0x1_0000_0000 && rec.arpa == ReverseDotted(rec.ip))
    && (rec.Dns? ==> Lower(rec.host) == rec.host)
  }

  // ---------------------------------------------------------------------------
  // Name server records of a zone.
  // ---------------------------------------------------------------------------

  /** The name is the domain or ends with it at a label boundary. */
  ghost predicate Below(name: seq<byte>, domain: seq<byte>) {
    name == domain || exists p: seq<byte> :: name == p + [DOT] + domain
  }

  /** The test dns_lookup makes. */
  predicate SuffixTest(name: seq<byte>, domain: seq<byte>) {
    var k := |name| - |domain|;
    (k > 0 && name[k - 1] == DOT && name[k..] == domain) || (k == 0 && name == domain)
  }

  lemma {:induction false} SuffixTestIsBelow(name: seq<byte>, domain: seq<byte>)
    ensures SuffixTest(name, domain) <==> Below(name, domain)
  {
    var k := |name| - |domain|;
    if k > 0 && name[k - 1] == DOT && name[k..] == domain {
      assert name == name[..k - 1] + [DOT] + domain;
    }
    if p: seq<byte> :| name == p + [DOT] + domain {
      assert k == |p| + 1;
    }
  }

  predicate Serves(rec: DnsRec, name: seq<byte>) {
    rec.Dns? && SuffixTest(name, rec.owner)
  }

  /** Indices, from the given one on, of the name server records for the name. */
  function Servers(db: seq<DnsRec>, name: seq<byte>, from: nat): (s: seq<nat>)
    ensures forall k :: 0 <= k < |s| ==> from <= s[k] < |db| && Serves(db[s[k]], name)
    decreases |db| - from
  {
    if from >= |db| then []
    else if Serves(db[from], name) then [from] + Servers(db, name, from + 1)
    else Servers(db, name, from + 1)
  }

  /** Exactly the records whose domain is the name or a suffix of it at a label boundary, each
      once and in insertion order. */
  lemma {:induction false} ServersAreExactlyTheZone(db: seq<DnsRec>, name: seq<byte>, from: nat)
    ensures forall i, j :: 0 <= i < j < |Servers(db, name, from)| ==> Servers(db, name, from)[i] < Servers(db, name, from)[j]
    ensures forall i :: from <= i < |db| ==>
      (i in Servers(db, name, from) <==> db[i].Dns? && Below(name, db[i].owner))
    decreases |db| - from
  {
    hide SuffixTest, Below;
    if from < |db| {
      ServersAreExactlyTheZone(db, name, from + 1);
      SuffixTestIsBelow(name, db[from].owner);
    }
  }

  function ZoneOf(rec: DnsRec): Zone
    requires rec.Dns?
  {
    Zone(rec.owner, rec.host)
  }

  function ZonesOf(db: seq<DnsRec>, s: seq<nat>): (z: seq<Zone>)
    requires forall k :: 0 <= k < |s| ==> s[k] < |db| && db[s[k]].Dns?
    ensures |z| == |s|
  {
    seq(|s|, k requires 0 <= k < |s| => ZoneOf(db[s[k]]))
  }

  /** The name server records for the name, in insertion order. */
  function Zones(db: seq<DnsRec>, name: seq<byte>): seq<Zone> {
    ZonesOf(db, Servers(db, name, 0))
  }

  // ---------------------------------------------------------------------------
  // Reverse zones.
  // ---------------------------------------------------------------------------

  /** ".in-addr.arpa" */
  const ARPA_DOMAIN: seq<byte> := [46, 105, 110, 45, 97, 100, 100, 114, 46, 97, 114, 112, 97]
  const ARPA_NAME_MAX := 197

  /** What follows the first dot, if there is one. */
  function AfterFirstDot(s: seq<byte>): Option<seq<byte>> {
    if LabelLen(s) < |s| then Some(s[LabelLen(s) + 1..]) else None
  }

  /** The zone of an address in reverse notation; snprintf cuts the name at ARPA_NAME_MAX. */
  function ReverseZone(arpa: seq<byte>): Option<seq<byte>> {
    var name := arpa + ARPA_DOMAIN;
    AfterFirstDot(if |name| <= ARPA_NAME_MAX then name else name[..ARPA_NAME_MAX])
  }

  lemma {:induction false} FirstDotSplits(name: seq<byte>, first: seq<byte>, parent: seq<byte>)
    requires 46 !in first && name == first + [46] + parent
    ensures AfterFirstDot(name) == Some(parent)
  {
    hide LabelLen;
    assert name == first + ([46] + parent);
    LabelLenAt(first, [46] + parent);
  }

  lemma {:induction false} ReverseZoneDropsFirst(first: seq<byte>, rest: seq<byte>)
    requires DOT !in first && |first| + |rest| <= 100
    ensures ReverseZone(first + [46] + rest) == Some(rest + Ascii(".in-addr.arpa"))
  {
    hide AfterFirstDot;
    assert Ascii(".in-addr.arpa") == ARPA_DOMAIN;
    assert first + [46] + rest + ARPA_DOMAIN == first + [46] + (rest + ARPA_DOMAIN);
    FirstDotSplits(first + [46] + (rest + ARPA_DOMAIN), first, rest + ARPA_DOMAIN);
  }

  /** The reverse zone of the address a.b.c.d is c.b.a.in-addr.arpa. */
  lemma {:induction false} ReverseZoneOfOctets(a: byte, b: byte, c: byte, d: byte)
    ensures ReverseZone(ReverseDotted(a * 0x100_0000 + b * 0x1_0000 + c * 0x100 + d))
      == Some(Decimal(c) + [46] + Decimal(b) + [46] + Decimal(a) + Ascii(".in-addr.arpa"))
  {
    hide Decimal, ReverseZone, ReverseDotted;
    ReverseOfOctets(a, b, c, d);
    DecimalDigits(a);
    DecimalDigits(b);
    DecimalDigits(c);
    DecimalDigits(d);
    var rest := Decimal(c) + [46] + Decimal(b) + [46] + Decimal(a);
    assert Decimal(d) + [46] + Decimal(c) + [46] + Decimal(b) + [46] + Decimal(a) == Decimal(d) + [46] + rest;
    ReverseZoneDropsFirst(Decimal(d), rest);
  }

  lemma {:induction false} ReverseZoneIsLower(arpa: seq<byte>)
    requires Lower(arpa) == arpa && ReverseZone(arpa).Some?
    ensures Lower(ReverseZone(arpa).value) == ReverseZone(arpa).value
  {
    var name := arpa + ARPA_DOMAIN;
    var cut := if |name| <= ARPA_NAME_MAX then name else name[..ARPA_NAME_MAX];
    forall k | 0 <= k < |name| ensures LowerByte(name[k]) == name[k] {
      if k < |arpa| {
        assert Lower(arpa)[k] == arpa[k];
      }
    }
    assert Lower(cut[LabelLen(cut) + 1..]) == cut[LabelLen(cut) + 1..];
  }

  /** Every reverse zone of an address record up to index n has its authority record. */
  ghost predicate Covered(db: seq<DnsRec>, n: nat) {
    forall i :: 0 <= i < n <= |db| && db[i].NameIp? && ReverseZone(db[i].arpa).Some? ==>
      Authority(ReverseZone(db[i].arpa).value) in db
  }

  /** So the zone c.b.a.in-addr.arpa of every stored address a.b.c.d. */
  lemma {:induction false} AddressesAreCovered(db: seq<DnsRec>, n: nat, i: nat, a: byte, b: byte, c: byte, d: byte)
    requires Covered(db, n) && i < n <= |db| && db[i].NameIp? && Stored(db[i])
    requires db[i].ip == a * 0x100_0000 + b * 0x1_0000 + c * 0x100 + d
    ensures Authority(Decimal(c) + [46] + Decimal(b) + [46] + Decimal(a) + Ascii(".in-addr.arpa")) in db
  {
    hide ReverseZone, ReverseDotted, Decimal;
    ReverseZoneOfOctets(a, b, c, d);
  }

  /** The records after index n are authorities for reverse zones of address records, and none
      of them repeats an earlier record. */
  ghost predicate OnlyNewZones(db: seq<DnsRec>, n: nat) {
    forall i :: n <= i < |db| ==>
      && db[i] !in db[..i]
      && exists j :: 0 <= j < n && db[j].NameIp? && ReverseZone(db[j].arpa) == Some(db[i].owner)
                     && db[i] == Authority(db[i].owner)
  }

  // ---------------------------------------------------------------------------
  // The database.
  // ---------------------------------------------------------------------------

  class Database {
    var dbv: array<DnsRec>
    var dbc: nat

    ghost predicate Valid()
      reads this, dbv
    {
      dbc <= dbv.Length && forall i :: 0 <= i < dbc ==> Stored(dbv[i])
    }

    function Contents(): (db: seq<DnsRec>)
      requires dbc <= dbv.Length
      reads this, dbv
      ensures |db| == dbc
    {
      dbv[..dbc]
    }

    constructor ()
      ensures Valid() && fresh(dbv) && Contents() == []
    {
      dbv := new DnsRec[0];
      dbc := 0;
    }

    /** add_record: the array grows by ten when it is full. */
    method AddRecord(rec: DnsRec)
      requires Valid() && Stored(rec)
      modifies this, dbv
      ensures Valid() && Contents() == old(Contents()) + [rec]
      ensures dbv == old(dbv) || fresh(dbv)
    {
      if dbc >= dbv.Length {
        var bigger := new DnsRec[dbv.Length + 10](i requires 0 <= i reads this, dbv => if i < dbv.Length then dbv[i] else rec);
        dbv := bigger;
      }
      dbv[dbc] := rec;
      dbc := dbc + 1;
    }

    /** add_nameip; None stands for an address inet_aton refuses. */
    method AddNameIp(name: seq<byte>, ip: Option<nat>) returns (stored: bool)
      requires Valid() && (ip.Some? ==> ip.value < 0x1_0000_0000)
      modifies this, dbv
      ensures Valid() && (stored <==> ip.Some?)
      ensures Contents() ==
        if ip.Some? then old(Contents()) + [NameIp(Lower(name), ReverseDotted(ip.value), ip.value)] else old(Contents())
      ensures dbv == old(dbv) || fresh(dbv)
    {
      hide ReverseDotted;
      if ip == None {
        return false;
      }
      LowerIdempotent(name);
      AddRecord(NameIp(Lower(name), ReverseDotted(ip.value), ip.value));
      stored := true;
    }

    method AddDns(domain: seq<byte>, host: seq<byte>)
      requires Valid()
      modifies this, dbv
      ensures Valid() && Contents() == old(Contents()) + [Dns(Lower(domain), Lower(host))]
      ensures dbv == old(dbv) || fresh(dbv)
    {
      LowerIdempotent(domain);
      LowerIdempotent(host);
      AddRecord(Dns(Lower(domain), Lower(host)));
    }

    method AddAuthority(domain: seq<byte>)
      requires Valid()
      modifies this, dbv
      ensures Valid() && Contents() == old(Contents()) + [Authority(Lower(domain))]
      ensures dbv == old(dbv) || fresh(dbv)
    {
      LowerIdempotent(domain);
      AddRecord(Authority(Lower(domain)));
    }

    /** name_lookup: hash code first, then the string. */
    method NameLookup(name: seq<byte>) returns (r: Option<DnsRec>)
      requires Valid()
      ensures r == First(Contents(), NameKey(name))
    {
      var code := GetStringCode(name);
      for i := 0 to dbc
        invariant First(Contents()[..i], NameKey(name)) == None
      {
        var rec := dbv[i];
        FirstStep(Contents(), i, NameKey(name));
        if rec.NameIp? && StringCode(rec.owner) == code && rec.owner == name {
          return Some(rec);
        }
      }
      assert Contents()[..dbc] == Contents();
      r := None;
    }

    /** ptr_lookup */
    method PtrLookup(arpa: seq<byte>) returns (r: Option<DnsRec>)
      requires Valid()
      ensures r == First(Contents(), ArpaKey(arpa))
    {
      var code := GetStringCode(arpa);
      for i := 0 to dbc
        invariant First(Contents()[..i], ArpaKey(arpa)) == None
      {
        var rec := dbv[i];
        FirstStep(Contents(), i, ArpaKey(arpa));
        if rec.NameIp? && StringCode(rec.arpa) == code && rec.arpa == arpa {
          return Some(rec);
        }
      }
      assert Contents()[..dbc] == Contents();
      r := None;
    }

    /** authority_lookup scans from the end. */
    method AuthorityLookup(domain: seq<byte>) returns (r: Option<DnsRec>)
      requires Valid()
      ensures r == if Authority(domain) in Contents() then Some(Authority(domain)) else None
    {
      var code := GetStringCode(domain);
      var i := dbc - 1;
      while i >= 0
        invariant -1 <= i < dbc
        invariant forall j :: i < j < dbc ==> dbv[j] != Authority(domain)
      {
        var rec := dbv[i];
        if rec.Authority? && StringCode(rec.owner) == code && rec.owner == domain {
          assert Contents()[i] == rec;
          return Some(rec);
        }
        i := i - 1;
      }
      r := None;
    }

    /** dns_lookup with its cursor: the next name server record for the name. */
    method DnsLookup(name: seq<byte>, last: int) returns (r: Option<nat>)
      requires Valid()
      ensures var start := if last < 0 then 0 else last + 1;
        match r
        case None => Servers(Contents(), name, start) == []
        case Some(i) => Servers(Contents(), name, start) == [i] + Servers(Contents(), name, i + 1)
      ensures r.Some? ==> r.value < dbc && Serves(Contents()[r.value], name)
    {
      var start: nat := if last < 0 then 0 else last + 1;
      var i := start;
      while i < dbc
        invariant start <= i
        invariant Servers(Contents(), name, start) == Servers(Contents(), name, i)
      {
        if Serves(dbv[i], name) {
          return Some(i);
        }
        i := i + 1;
      }
      r := None;
    }

    /** The loop of master_init that adds the missing authorities: it scans the array it
        appends to. */
    method AutoAuthority()
      requires Valid()
      modifies this, dbv
      ensures Valid() && old(Contents()) <= Contents()
      ensures Covered(Contents(), old(dbc)) && OnlyNewZones(Contents(), old(dbc))
    {
      hide Covered, OnlyNewZones;
      var i := 0;
      ghost var n := dbc;
      ghost var before := Contents();
      NothingYet(before);
      while i < dbc
        invariant Valid() && n <= dbc && before <= Contents() && i <= dbc
        invariant Covered(Contents(), if i < n then i else n) && OnlyNewZones(Contents(), n)
        invariant dbv == old(dbv) || fresh(dbv)
        decreases if i < n then n - i else 0, dbc - i
      {
        CoverRecord(i, n);
        i := i + 1;
      }
    }

    /** One turn of that loop. */
    method CoverRecord(i: nat, ghost n: nat)
      requires Valid() && i < dbc && n <= dbc
      requires Covered(Contents(), if i < n then i else n) && OnlyNewZones(Contents(), n)
      modifies this, dbv
      ensures Valid() && old(Contents()) <= Contents() && (dbv == old(dbv) || fresh(dbv))
      ensures Covered(Contents(), if i + 1 < n then i + 1 else n) && OnlyNewZones(Contents(), n)
      ensures i >= n ==> Contents() == old(Contents())
    {
      hide Covered, OnlyNewZones, ReverseZone;
      ghost var db := Contents();
      var rec := dbv[i];
      if rec.NameIp? {
        NoLateNames(db, n, i);
        var zone := ReverseZone(rec.arpa);
        if zone.Some? {
          ReverseZoneIsLower(rec.arpa);
          var known := AuthorityLookup(zone.value);
          if known == None {
            AddAuthority(zone.value);
            NewZone(db, n, i);
          }
        }
      }
      if i < n {
        CoveredNext(Contents(), i);
      }
    }
  }

  lemma {:induction false} NothingYet(db: seq<DnsRec>)
    ensures Covered(db, 0) && OnlyNewZones(db, |db|)
  {
  }

  /** Beyond index n there are only authority records. */
  lemma {:induction false} NoLateNames(db: seq<DnsRec>, n: nat, i: nat)
    requires OnlyNewZones(db, n) && i < |db| && db[i].NameIp?
    ensures i < n
  {
  }

  lemma {:induction false} NewZone(db: seq<DnsRec>, n: nat, i: nat)
    requires OnlyNewZones(db, n) && n <= |db| && i < n && db[i].NameIp? && ReverseZone(db[i].arpa).Some?
    requires Authority(ReverseZone(db[i].arpa).value) !in db
    ensures var more := db + [Authority(ReverseZone(db[i].arpa).value)];
      OnlyNewZones(more, n) && (Covered(db, i) ==> Covered(more, i))
  {
    hide ReverseZone;
    var more := db + [Authority(ReverseZone(db[i].arpa).value)];
    assert forall rec :: rec in db ==> rec in more;
    assert forall j :: 0 <= j < |db| ==> more[j] == db[j];
    forall k: nat | n <= k < |more| ensures more[k] !in more[..k] {
      assert more[..k] == db[..k];
    }
    forall k: nat | n <= k < |more|
      ensures exists j :: 0 <= j < n && more[j].NameIp? && ReverseZone(more[j].arpa) == Some(more[k].owner)
                          && more[k] == Authority(more[k].owner)
    {
      if k < |db| {
        var j :| 0 <= j < n && db[j].NameIp? && ReverseZone(db[j].arpa) == Some(db[k].owner)
                 && db[k] == Authority(db[k].owner);
        assert more[j] == db[j];
      } else {
        assert more[i] == db[i];
      }
    }
  }

  lemma {:induction false} CoveredNext(db: seq<DnsRec>, i: nat)
    requires Covered(db, i) && i < |db|
    requires db[i].NameIp? && ReverseZone(db[i].arpa).Some? ==> Authority(ReverseZone(db[i].arpa).value) in db
    ensures Covered(db, i + 1)
  {
  }

  lemma {:induction false} FirstStep(db: seq<DnsRec>, i: nat, key: Key)
    requires i < |db| && First(db[..i], key) == None
    ensures First(db[..i + 1], key) == if Is(db[i], key) then Some(db[i]) else None
    ensures Is(db[i], key) ==> First(db, key) == Some(db[i])
    decreases |db| - i
  {
    assert db[..i + 1][..i] == db[..i];
    if Is(db[i], key) {
      FirstStays(db, i + 1, key);
    }
  }

  lemma {:induction false} FirstStays(db: seq<DnsRec>, i: nat, key: Key)
    requires i <= |db| && First(db[..i], key).Some?
    ensures First(db, key) == First(db[..i], key)
    decreases |db|
  {
    if i < |db| {
      var front := db[..|db| - 1];
      assert front[..i] == db[..i];
      FirstStays(front, i, key);
    } else {
      assert db[..i] == db;
    }
  }
}
