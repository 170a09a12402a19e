/** The octets of the replies master.c assembles, and that dns.c's reader reads them back. */
module ReplyFormat {
  import opened Octets
  import opened NameWalk
  import opened Records
  import opened NameCodec

  const DEFAULT_TTL := 3600
  const TYPE_A := 1
  const TYPE_NS := 2
  const TYPE_PTR := 12

  /** An NS record of the database, as the authority section gives it. */
  datatype Zone = Zone(domain: seq<byte>, host: seq<byte>)

  /** What a reply says: the RDATA of the answers to the question, and the authority records. */
  datatype Reply = Reply(question: Question, flags: nat, answers: seq<seq<byte>>, authority: seq<Zone>)

  // ---------------------------------------------------------------------------
  // The layout.
  // ---------------------------------------------------------------------------

  function QuestionOctets(q: Question): seq<byte> {
    Wire(q.name) + U16(q.qtype % 0x1_0000) + U16(q.qclass % 0x1_0000)
  }

  /** Everything of a record after its owner name. */
  function Fixed(rtype: nat, rdata: seq<byte>): (w: seq<byte>)
    ensures |w| == 10 + |rdata|
  {
    U16(rtype % 0x1_0000) + U16(CLASS_INET) + U32(DEFAULT_TTL) + U16(|rdata| % 0x1_0000) + rdata
  }

  /** A record whose owner is the question's name, by a pointer to offset 12. */
  function AnswerOctets(rtype: nat, rdata: seq<byte>): seq<byte> {
    [0xC0, 0x0C] + Fixed(rtype, rdata)
  }

  function AnswersOctets(rtype: nat, answers: seq<seq<byte>>): seq<byte> {
    if answers == [] then []
    else AnswersOctets(rtype, answers[..|answers| - 1]) + AnswerOctets(rtype, answers[|answers| - 1])
  }

  /** An authority record: the first one writes its owner out, at pos; the others point there. */
  function ZoneOctets(pos: nat, first: bool, z: Zone): seq<byte> {
    (if first then Wire(z.domain) else PointerOctets(pos)) + Fixed(TYPE_NS, Wire(z.host))
  }

  function AuthorityOctets(pos: nat, zones: seq<Zone>): seq<byte> {
    if zones == [] then []
    else AuthorityOctets(pos, zones[..|zones| - 1]) + ZoneOctets(pos, |zones| == 1, zones[|zones| - 1])
  }

  /** The header after the ID: flags and the four counts. */
  function CountOctets(r: Reply): (w: seq<byte>)
    ensures |w| == DATA_BEGIN - 2
  {
    U16(r.flags % 0x1_0000) + U16(1) + U16(|r.answers| % 0x1_0000) + U16(|r.authority| % 0x1_0000) + U16(0)
  }

  /** Where the authority section starts. */
  function AuthorityStart(r: Reply): nat {
    DATA_BEGIN + |QuestionOctets(r.question)| + |AnswersOctets(r.question.qtype, r.answers)|
  }

  function ReplyOctets(r: Reply): (w: seq<byte>)
    ensures |w| >= DATA_BEGIN
  {
    [0, 0] + CountOctets(r) + QuestionOctets(r.question) + AnswersOctets(r.question.qtype, r.answers)
      + AuthorityOctets(AuthorityStart(r), r.authority)
  }

  // ---------------------------------------------------------------------------
  // Reading back.
  // ---------------------------------------------------------------------------

  function AnswerRecord(q: Question, rdata: seq<byte>): Record {
    Record(q.name, q.qtype, CLASS_INET, DEFAULT_TTL, rdata)
  }

  function AnswerRecords(q: Question, answers: seq<seq<byte>>): seq<Record> {
    if answers == [] then []
    else AnswerRecords(q, answers[..|answers| - 1]) + [AnswerRecord(q, answers[|answers| - 1])]
  }

  function ZoneRecord(owner: seq<byte>, z: Zone): Record {
    Record(owner, TYPE_NS, CLASS_INET, DEFAULT_TTL, Wire(z.host))
  }

  /** What a reader finds in the authority section: every owner is the first record's. */
  function AuthorityRecords(zones: seq<Zone>): seq<Record> {
    if zones == [] then []
    else AuthorityRecords(zones[..|zones| - 1]) + [ZoneRecord(zones[0].domain, zones[|zones| - 1])]
  }

  lemma {:induction false} FixedFields(msg: seq<byte>, i: nat, rtype: nat, rdata: seq<byte>)
    requires Holds(msg, i, Fixed(rtype, rdata)) && rtype < 0x1_0000 && |rdata| < 0x1_0000
    ensures i + 10 + |rdata| <= |msg| && msg[i + 10..i + 10 + |rdata|] == rdata
    ensures ReadU16(msg, i) == rtype && ReadU16(msg, i + 2) == CLASS_INET
    ensures ReadU32(msg, i + 4) == DEFAULT_TTL && ReadU16(msg, i + 8) == |rdata|
  {
    hide Holds, U16, U32, ReadU16, ReadU32;
    var a, b, c, d := U16(rtype), U16(CLASS_INET), U32(DEFAULT_TTL), U16(|rdata|);
    HoldsSplit(msg, i, a + b + c + d, rdata);
    HoldsSplit(msg, i, a + b + c, d);
    HoldsSplit(msg, i, a + b, c);
    HoldsSplit(msg, i, a, b);
    U16RoundTrip(rtype, msg, i);
    U16RoundTrip(CLASS_INET, msg, i + 2);
    U32RoundTrip(DEFAULT_TTL, msg, i + 4);
    U16RoundTrip(|rdata|, msg, i + 8);
    HoldsText(msg, i + 10, rdata);
  }

  /** One assembled record reads back as written: RDLENGTH is the size of its data. */
  lemma {:induction false} RecordRoundTrip(msg: seq<byte>, at: nat, size: nat, ls: seq<Label>, rtype: nat, rdata: seq<byte>)
    requires NameAt(msg, at) == Some(ls) && InPlaceEnd(msg, at) == at + size
    requires rtype < 0x1_0000 && |rdata| <= DATA_KEPT
    requires Holds(msg, at + size, Fixed(rtype, rdata))
    ensures RecordAt(msg, at) ==
      Some((Record(Text(ls), rtype, CLASS_INET, DEFAULT_TTL, rdata), at + size + 10 + |rdata|))
  {
    hide Text, Fixed, InPlaceEnd, Holds, ReadU16, ReadU32, NameAt;
    FixedFields(msg, at + size, rtype, rdata);
  }

  lemma {:induction false} AnswersPrefix(rtype: nat, answers: seq<seq<byte>>, k: nat)
    requires k < |answers|
    ensures AnswersOctets(rtype, answers[..k + 1])
         == AnswersOctets(rtype, answers[..k]) + AnswerOctets(rtype, answers[k]) <= AnswersOctets(rtype, answers)
    decreases |answers|
  {
    hide AnswerOctets;
    assert answers[..k + 1][..k] == answers[..k];
    if k + 1 < |answers| {
      var front := answers[..|answers| - 1];
      AnswersPrefix(rtype, front, k);
      assert front[..k] == answers[..k] && front[..k + 1] == answers[..k + 1];
    } else {
      assert answers[..k + 1] == answers;
    }
  }

  /** The answer section reads back: owner, type, class, TTL, data and the end of each record. */
  lemma {:induction false} AnswersRoundTrip(msg: seq<byte>, start: nat, q: Question, ls: seq<Label>,
                                            answers: seq<seq<byte>>, k: nat)
    requires LegalName(ls) && q.name == Text(ls) && q.qtype < 0x1_0000 && k <= |answers|
    requires forall i :: 0 <= i < |answers| ==> |answers[i]| <= DATA_KEPT
    requires Holds(msg, DATA_BEGIN, Wire(q.name))
    requires DATA_BEGIN <= start && Holds(msg, start, AnswersOctets(q.qtype, answers))
    ensures RecordsAt(msg, start, k) ==
      Some((AnswerRecords(q, answers[..k]), start + |AnswersOctets(q.qtype, answers[..k])|))
  {
    hide RecordAt, AnswersOctets, AnswerRecords, Wire, Text, LegalName, Holds;
    if k == 0 {
      NoAnswers(q);
    } else {
      AnswersRoundTrip(msg, start, q, ls, answers, k - 1);
      AnswersPrefix(q.qtype, answers, k - 1);
      AnswerRoundTrip(msg, start, q, ls, answers, k - 1);
      OneMoreAnswer(q, answers, k - 1);
    }
  }

  lemma {:induction false} NoAnswers(q: Question)
    ensures AnswersOctets(q.qtype, []) == [] && AnswerRecords(q, []) == []
  {
  }

  lemma {:induction false} OneMoreAnswer(q: Question, answers: seq<seq<byte>>, k: nat)
    requires k < |answers|
    ensures AnswerRecords(q, answers[..k + 1]) == AnswerRecords(q, answers[..k]) + [AnswerRecord(q, answers[k])]
  {
    assert answers[..k + 1][..k] == answers[..k];
  }

  lemma {:induction false} AnswerRoundTrip(msg: seq<byte>, start: nat, q: Question, ls: seq<Label>,
                                           answers: seq<seq<byte>>, k: nat)
    requires LegalName(ls) && q.name == Text(ls) && q.qtype < 0x1_0000
    requires k < |answers| && |answers[k]| <= DATA_KEPT
    requires Holds(msg, DATA_BEGIN, Wire(q.name))
    requires DATA_BEGIN <= start && Holds(msg, start, AnswersOctets(q.qtype, answers))
    requires AnswersOctets(q.qtype, answers[..k + 1]) ==
      AnswersOctets(q.qtype, answers[..k]) + AnswerOctets(q.qtype, answers[k]) <= AnswersOctets(q.qtype, answers)
    ensures RecordAt(msg, start + |AnswersOctets(q.qtype, answers[..k])|) ==
      Some((AnswerRecord(q, answers[k]), start + |AnswersOctets(q.qtype, answers[..k + 1])|))
  {
    hide RecordAt, AnswersOctets, Wire, Text, LegalName, Fixed, Holds;
    var front := AnswersOctets(q.qtype, answers[..k]);
    var a := start + |front|;
    HoldsPart(msg, start, AnswersOctets(q.qtype, answers), |front|, AnswerOctets(q.qtype, answers[k]));
    HoldsSplit(msg, a, PointerOctets(DATA_BEGIN), Fixed(q.qtype, answers[k]));
    PointerRoundTrip(msg, a, DATA_BEGIN, ls);
    RecordRoundTrip(msg, a, 2, ls, q.qtype, answers[k]);
  }

  // ---------------------------------------------------------------------------
  // The authority section.
  // ---------------------------------------------------------------------------

  /** The pointers to the first owner, at pos, read as its name. */
  ghost predicate PointersSpell(msg: seq<byte>, pos: nat, zones: seq<Zone>) {
    |zones| > 1 ==> Spells(msg, pos % 64, zones[0].domain)
  }

  /** The first owner is a legal name, and every server's name fits a reader's record. */
  ghost predicate ReadableZones(zones: seq<Zone>, ds: seq<Label>) {
    && LegalName(ds)
    && (zones != [] ==> zones[0].domain == Text(ds))
    && forall k :: 0 <= k < |zones| ==> |Wire(zones[k].host)| <= DATA_KEPT
  }

  lemma {:induction false} ZonesPrefix(pos: nat, zones: seq<Zone>, k: nat)
    requires k < |zones|
    ensures AuthorityOctets(pos, zones[..k + 1])
         == AuthorityOctets(pos, zones[..k]) + ZoneOctets(pos, k == 0, zones[k]) <= AuthorityOctets(pos, zones)
    decreases |zones|
  {
    hide ZoneOctets;
    assert zones[..k + 1][..k] == zones[..k];
    if k + 1 < |zones| {
      var front := zones[..|zones| - 1];
      ZonesPrefix(pos, front, k);
      assert front[..k] == zones[..k] && front[..k + 1] == zones[..k + 1];
    } else {
      assert zones[..k + 1] == zones;
    }
  }

  lemma {:induction false} NoZones(pos: nat)
    ensures AuthorityOctets(pos, []) == [] && AuthorityRecords([]) == []
  {
  }

  lemma {:induction false} OneMoreZone(zones: seq<Zone>, k: nat)
    requires k < |zones|
    ensures AuthorityRecords(zones[..k + 1]) == AuthorityRecords(zones[..k]) + [ZoneRecord(zones[0].domain, zones[k])]
  {
    assert zones[..k + 1][..k] == zones[..k];
  }

  /** Record k is read with its own domain as owner exactly when that is the first domain. */
  lemma {:induction false} OwnerIsOwnDomainIff(zones: seq<Zone>, k: nat)
    requires k < |zones|
    ensures |AuthorityRecords(zones)| == |zones|
    ensures AuthorityRecords(zones)[k] == ZoneRecord(zones[k].domain, zones[k]) <==> zones[k].domain == zones[0].domain
  {
    if |zones| > 1 {
      var front := zones[..|zones| - 1];
      OwnerIsOwnDomainIff(front, if k < |front| then k else 0);
    } else {
      assert AuthorityRecords(zones[..0]) == [];
    }
  }

  /** The authority section reads back after the c records in front of it. */
  lemma {:induction false} AuthorityRoundTrip(msg: seq<byte>, start: nat, c: nat, pos: nat, zones: seq<Zone>,
                                              ds: seq<Label>, k: nat)
    requires ReadableZones(zones, ds) && k <= |zones| && (k > 1 ==> PointersSpell(msg, pos, zones))
    requires RecordsAt(msg, start, c).Some? && RecordsAt(msg, start, c).value.1 == pos
    requires DATA_BEGIN <= pos && Holds(msg, pos, AuthorityOctets(pos, zones))
    ensures RecordsAt(msg, start, c + k) ==
      Some((RecordsAt(msg, start, c).value.0 + AuthorityRecords(zones[..k]), pos + |AuthorityOctets(pos, zones[..k])|))
  {
    hide RecordAt, AuthorityOctets, AuthorityRecords, Wire, Text, LegalName, Holds, Spells;
    if k == 0 {
      NoZones(pos);
      assert RecordsAt(msg, start, c).value.0 + [] == RecordsAt(msg, start, c).value.0;
    } else {
      AuthorityRoundTrip(msg, start, c, pos, zones, ds, k - 1);
      ZonesPrefix(pos, zones, k - 1);
      ZoneRoundTrip(msg, pos, zones, ds, k - 1);
      OneMoreZone(zones, k - 1);
      var before := RecordsAt(msg, start, c).value.0;
      assert before + (AuthorityRecords(zones[..k - 1]) + [ZoneRecord(zones[0].domain, zones[k - 1])])
          == before + AuthorityRecords(zones[..k - 1]) + [ZoneRecord(zones[0].domain, zones[k - 1])];
    }
  }

  lemma {:induction false} ZoneRoundTrip(msg: seq<byte>, pos: nat, zones: seq<Zone>, ds: seq<Label>, k: nat)
    requires ReadableZones(zones, ds) && k < |zones| && (k > 0 ==> PointersSpell(msg, pos, zones))
    requires DATA_BEGIN <= pos && Holds(msg, pos, AuthorityOctets(pos, zones))
    requires AuthorityOctets(pos, zones[..k + 1]) ==
      AuthorityOctets(pos, zones[..k]) + ZoneOctets(pos, k == 0, zones[k]) <= AuthorityOctets(pos, zones)
    ensures RecordAt(msg, pos + |AuthorityOctets(pos, zones[..k])|) ==
      Some((ZoneRecord(zones[0].domain, zones[k]), pos + |AuthorityOctets(pos, zones[..k + 1])|))
  {
    hide RecordAt, AuthorityOctets, Wire, Text, LegalName, Fixed, Holds, PointerOctets, Spells;
    var front := AuthorityOctets(pos, zones[..k]);
    var a := pos + |front|;
    var owner := if k == 0 then Wire(zones[k].domain) else PointerOctets(pos);
    HoldsPart(msg, pos, AuthorityOctets(pos, zones), |front|, ZoneOctets(pos, k == 0, zones[k]));
    HoldsSplit(msg, a, owner, Fixed(TYPE_NS, Wire(zones[k].host)));
    var read := ds;
    if k == 0 {
      NameRoundTrip(msg, a, ds);
    } else {
      PointerSpellsIff(msg, a, pos, zones[0].domain);
      read := NameAt(msg, a).value;
    }
    RecordRoundTrip(msg, a, |owner|, read, TYPE_NS, Wire(zones[k].host));
  }

  /** The first owner name stands at pos. */
  lemma {:induction false} FirstOwner(msg: seq<byte>, pos: nat, zones: seq<Zone>)
    requires zones != [] && Holds(msg, pos, AuthorityOctets(pos, zones))
    ensures Holds(msg, pos, Wire(zones[0].domain))
  {
    hide AuthorityOctets, Wire, Fixed, Holds;
    NoZones(pos);
    ZonesPrefix(pos, zones, 0);
    assert zones[..0] == [];
    HoldsPart(msg, pos, AuthorityOctets(pos, zones), 0, Wire(zones[0].domain));
  }

  // ---------------------------------------------------------------------------
  // The whole message.
  // ---------------------------------------------------------------------------

  /** A reply whose names are legal and whose data the reader keeps whole. */
  ghost predicate Readable(r: Reply, ls: seq<Label>, ds: seq<Label>) {
    && LegalName(ls) && r.question.name == Text(ls)
    && r.question.qtype < 0x1_0000 && r.question.qclass < 0x1_0000
    && (forall k :: 0 <= k < |r.answers| ==> |r.answers[k]| <= DATA_KEPT)
    && ReadableZones(r.authority, ds)
    && |r.answers| < 0x8000 && |r.authority| < 0x8000
  }

  lemma {:induction false} HeaderFields(msg: seq<byte>, r: Reply)
    requires Holds(msg, 2, CountOctets(r)) && DATA_BEGIN <= |msg|
    requires |r.answers| < 0x8000 && |r.authority| < 0x8000
    ensures ReadU16(msg, 2) == r.flags % 0x1_0000 && ReadU16(msg, 4) == 1
    ensures Count(msg, 6) == |r.answers| && Count(msg, 8) == |r.authority| && Count(msg, 10) == 0
    ensures RecordCount(msg) == |r.answers| + |r.authority|
  {
    hide Holds, U16, ReadU16;
    var a, b, c, d, e := U16(r.flags % 0x1_0000), U16(1), U16(|r.answers|), U16(|r.authority|), U16(0);
    HoldsSplit(msg, 2, a + b + c + d, e);
    HoldsSplit(msg, 2, a + b + c, d);
    HoldsSplit(msg, 2, a + b, c);
    HoldsSplit(msg, 2, a, b);
    U16RoundTrip(r.flags % 0x1_0000, msg, 2);
    U16RoundTrip(1, msg, 4);
    U16RoundTrip(|r.answers|, msg, 6);
    U16RoundTrip(|r.authority|, msg, 8);
    U16RoundTrip(0, msg, 10);
  }

  lemma {:induction false} QuestionRoundTrip(msg: seq<byte>, q: Question, ls: seq<Label>)
    requires LegalName(ls) && q.name == Text(ls) && q.qtype < 0x1_0000 && q.qclass < 0x1_0000
    requires Holds(msg, DATA_BEGIN, QuestionOctets(q))
    ensures NameAt(msg, DATA_BEGIN) == Some(ls)
    ensures QuestionAt(msg, DATA_BEGIN) == Some((q, DATA_BEGIN + |QuestionOctets(q)|))
    ensures Holds(msg, DATA_BEGIN, Wire(q.name))
  {
    hide Wire, Text, LegalName, Holds, U16, ReadU16, InPlaceEnd, NameAt;
    var n := |Wire(q.name)|;
    HoldsSplit(msg, DATA_BEGIN, Wire(q.name) + U16(q.qtype), U16(q.qclass));
    HoldsSplit(msg, DATA_BEGIN, Wire(q.name), U16(q.qtype));
    U16RoundTrip(q.qtype, msg, DATA_BEGIN + n);
    U16RoundTrip(q.qclass, msg, DATA_BEGIN + n + 2);
    NameRoundTrip(msg, DATA_BEGIN, ls);
  }

  /** Where the sections of a reply stand in a message that differs from it at most in its ID. */
  lemma {:induction false} ReplySections(msg: seq<byte>, r: Reply)
    requires |msg| == |ReplyOctets(r)| && msg[2..] == ReplyOctets(r)[2..]
    ensures Holds(msg, 2, CountOctets(r)) && Holds(msg, DATA_BEGIN, QuestionOctets(r.question))
    ensures Holds(msg, DATA_BEGIN + |QuestionOctets(r.question)|, AnswersOctets(r.question.qtype, r.answers))
    ensures var pos := AuthorityStart(r);
      Holds(msg, pos, AuthorityOctets(pos, r.authority)) && pos + |AuthorityOctets(pos, r.authority)| == |msg|
  {
    hide QuestionOctets, AnswersOctets, AuthorityOctets, CountOctets;
    var pos := AuthorityStart(r);
    var h, q, a, z := CountOctets(r), QuestionOctets(r.question), AnswersOctets(r.question.qtype, r.answers),
      AuthorityOctets(pos, r.authority);
    assert ReplyOctets(r)[2..] == h + q + a + z;
    assert Holds(msg, 2, h + q + a + z);
    HoldsSplit(msg, 2, h + q + a, z);
    HoldsSplit(msg, 2, h + q, a);
    HoldsSplit(msg, 2, h, q);
  }

  /** What a reader is meant to find in a reply. */
  ghost predicate ReadsBack(msg: seq<byte>, r: Reply)
    requires DATA_BEGIN <= |msg|
  {
    MessageAt(msg) == Some(Message(r.question, AnswerRecords(r.question, r.answers) + AuthorityRecords(r.authority), |msg|))
  }

  /** Assembled replies parse back: one question, then the answers and authority records with
      their owners, types, lifetimes and data, up to exactly the end of the message. */
  lemma {:induction false} ReplyRoundTrip(msg: seq<byte>, r: Reply, ls: seq<Label>, ds: seq<Label>)
    requires Readable(r, ls, ds) && PointersSpell(msg, AuthorityStart(r), r.authority)
    requires |msg| == |ReplyOctets(r)| && msg[2..] == ReplyOctets(r)[2..]
    ensures ReadsBack(msg, r)
  {
    hide QuestionOctets, AnswersOctets, AuthorityOctets, CountOctets, ReplyOctets, Wire, LegalName, Text, RecordAt,
      QuestionAt, AnswerRecords, AuthorityRecords, Holds, Spells;
    var pos := AuthorityStart(r);
    var start := DATA_BEGIN + |QuestionOctets(r.question)|;
    ReplySections(msg, r);
    HeaderFields(msg, r);
    QuestionRoundTrip(msg, r.question, ls);
    AnswersRoundTrip(msg, start, r.question, ls, r.answers, |r.answers|);
    assert r.answers[..|r.answers|] == r.answers;
    AuthorityRoundTrip(msg, start, |r.answers|, pos, r.authority, ds, |r.authority|);
    assert r.authority[..|r.authority|] == r.authority;
  }

  /** Where the second authority record, the first with a pointer, stands. */
  lemma {:induction false} SecondZone(msg: seq<byte>, r: Reply, ls: seq<Label>, ds: seq<Label>) returns (at: nat)
    requires Readable(r, ls, ds) && |r.authority| > 1
    requires |msg| == |ReplyOctets(r)| && msg[2..] == ReplyOctets(r)[2..]
    ensures DATA_BEGIN <= at && Holds(msg, at, PointerOctets(AuthorityStart(r)))
    ensures var start := DATA_BEGIN + |QuestionOctets(r.question)|;
      QuestionAt(msg, DATA_BEGIN) == Some((r.question, start)) && RecordCount(msg) == |r.answers| + |r.authority|
      && RecordsAt(msg, start, |r.answers| + 1).Some? && RecordsAt(msg, start, |r.answers| + 1).value.1 == at
  {
    hide QuestionOctets, AnswersOctets, AuthorityOctets, CountOctets, ReplyOctets, Wire, LegalName, Text, RecordAt,
      QuestionAt, AnswerRecords, AuthorityRecords, Holds, Spells, RecordsAt, RecordCount, PointerOctets;
    var pos, zones := AuthorityStart(r), r.authority;
    var start := DATA_BEGIN + |QuestionOctets(r.question)|;
    ReplySections(msg, r);
    HeaderFields(msg, r);
    QuestionRoundTrip(msg, r.question, ls);
    AnswersRoundTrip(msg, start, r.question, ls, r.answers, |r.answers|);
    assert r.answers[..|r.answers|] == r.answers;
    AuthorityRoundTrip(msg, start, |r.answers|, pos, zones, ds, 1);
    ZonesPrefix(pos, zones, 1);
    var front := AuthorityOctets(pos, zones[..1]);
    at := pos + |front|;
    HoldsPart(msg, pos, AuthorityOctets(pos, zones), |front|, ZoneOctets(pos, false, zones[1]));
    HoldsSplit(msg, at, PointerOctets(pos), Fixed(TYPE_NS, Wire(zones[1].host)));
  }

  lemma {:induction false} OwnerOfSecond(r: Reply)
    requires |r.authority| > 1
    ensures var rs := AnswerRecords(r.question, r.answers) + AuthorityRecords(r.authority);
      |rs| == |r.answers| + |r.authority| && rs[|r.answers| + 1].name == r.authority[0].domain
  {
    AnswersKeepCount(r.question, r.answers);
    RecordsOfZones(r.authority, 1);
  }

  lemma {:induction false} AnswersKeepCount(q: Question, answers: seq<seq<byte>>)
    ensures |AnswerRecords(q, answers)| == |answers|
  {
    if answers != [] {
      AnswersKeepCount(q, answers[..|answers| - 1]);
    }
  }

  lemma {:induction false} RecordsOfZones(zones: seq<Zone>, k: nat)
    requires k < |zones|
    ensures |AuthorityRecords(zones)| == |zones| && AuthorityRecords(zones)[k] == ZoneRecord(zones[0].domain, zones[k])
  {
    var front := zones[..|zones| - 1];
    if front != [] {
      RecordsOfZones(front, if k < |front| then k else 0);
    }
  }

  /** The flags are read back in any case. */
  lemma {:induction false} FlagsReadBack(msg: seq<byte>, r: Reply)
    requires |r.answers| < 0x8000 && |r.authority| < 0x8000
    requires |msg| == |ReplyOctets(r)| && msg[2..] == ReplyOctets(r)[2..]
    ensures ReadU16(msg, 2) == r.flags % 0x1_0000 && ReadU16(msg, 4) == 1
  {
    hide ReplyOctets, CountOctets, Holds, ReadU16;
    ReplySections(msg, r);
    HeaderFields(msg, r);
  }

  /** Names are legal and counts are no negative 16 bit numbers, whatever the size of the data. */
  ghost predicate Assembled(r: Reply, ls: seq<Label>, ds: seq<Label>) {
    && LegalName(ls) && LegalName(ds) && r.question.name == Text(ls)
    && r.question.qtype < 0x1_0000 && r.question.qclass < 0x1_0000
    && (r.authority != [] ==> r.authority[0].domain == Text(ds))
    && |r.answers| < 0x8000 && |r.authority| < 0x8000
  }

  /** The reader keeps the data of every record whole. */
  predicate DataKept(r: Reply) {
    && (forall k :: 0 <= k < |r.answers| ==> |r.answers[k]| <= DATA_KEPT)
    && (forall k :: 0 <= k < |r.authority| ==> |Wire(r.authority[k].host)| <= DATA_KEPT)
  }

  /** What a reader finds never has more data than it keeps. */
  lemma {:induction false} ReadDataIsKept(msg: seq<byte>, pos: nat, n: nat)
    requires RecordsAt(msg, pos, n).Some?
    ensures forall k :: 0 <= k < |RecordsAt(msg, pos, n).value.0| ==> |RecordsAt(msg, pos, n).value.0[k].data| <= DATA_KEPT
  {
    if n > 0 {
      ReadDataIsKept(msg, pos, n - 1);
      RecordDataIsKept(msg, RecordsAt(msg, pos, n - 1).value.1);
    }
  }

  lemma {:induction false} RecordDataIsKept(msg: seq<byte>, pos: nat)
    ensures RecordAt(msg, pos).Some? ==> |RecordAt(msg, pos).value.0.data| <= DATA_KEPT
  {
  }

  /** What it is meant to find has all data of the reply. */
  lemma {:induction false} MeantData(r: Reply)
    ensures var rs := AnswerRecords(r.question, r.answers) + AuthorityRecords(r.authority);
      && |rs| == |r.answers| + |r.authority|
      && (forall k :: 0 <= k < |r.answers| ==> rs[k].data == r.answers[k])
      && (forall k :: 0 <= k < |r.authority| ==> rs[|r.answers| + k].data == Wire(r.authority[k].host))
  {
    hide Wire;
    AnswersKeepCount(r.question, r.answers);
    forall k | 0 <= k < |r.answers| ensures AnswerRecords(r.question, r.answers)[k].data == r.answers[k] {
      AnswerAt(r.question, r.answers, k);
    }
    if r.authority != [] {
      RecordsOfZones(r.authority, 0);
    }
    forall k | 0 <= k < |r.authority| ensures AuthorityRecords(r.authority)[k].data == Wire(r.authority[k].host) {
      RecordsOfZones(r.authority, k);
    }
  }

  lemma {:induction false} AnswerAt(q: Question, answers: seq<seq<byte>>, k: nat)
    requires k < |answers|
    ensures |AnswerRecords(q, answers)| == |answers| && AnswerRecords(q, answers)[k] == AnswerRecord(q, answers[k])
  {
    var front := answers[..|answers| - 1];
    if k < |front| {
      AnswerAt(q, front, k);
    } else {
      AnswersKeepCount(q, front);
    }
  }

  lemma {:induction false} OnlyKeptReadsBack(msg: seq<byte>, r: Reply)
    requires DATA_BEGIN <= |msg| && ReadsBack(msg, r)
    ensures DataKept(r)
  {
    hide Wire, RecordsAt, QuestionAt, AnswerRecords, AuthorityRecords;
    MeantData(r);
    var start := QuestionAt(msg, DATA_BEGIN).value.1;
    ReadDataIsKept(msg, start, RecordCount(msg));
    var rs := AnswerRecords(r.question, r.answers) + AuthorityRecords(r.authority);
    forall k | 0 <= k < |r.answers| ensures |r.answers[k]| <= DATA_KEPT {
      assert rs[k].data == r.answers[k];
    }
    forall k | 0 <= k < |r.authority| ensures |Wire(r.authority[k].host)| <= DATA_KEPT {
      assert rs[|r.answers| + k].data == Wire(r.authority[k].host);
    }
  }

  /** They parse back exactly if the reader keeps all data, and there is no pointer to an owner or the
      pointers read as its name. */
  lemma {:induction false} AssembledReadsBackIff(msg: seq<byte>, r: Reply, ls: seq<Label>, ds: seq<Label>)
    requires Assembled(r, ls, ds)
    requires |msg| == |ReplyOctets(r)| && msg[2..] == ReplyOctets(r)[2..]
    ensures ReadsBack(msg, r) <==> DataKept(r) && PointersSpell(msg, AuthorityStart(r), r.authority)
  {
    hide ReplyOctets, LegalName, Text, AuthorityStart, ReadsBack, PointersSpell, Wire;
    if DataKept(r) {
      ReplyReadsBackIff(msg, r, ls, ds);
    } else if ReadsBack(msg, r) {
      OnlyKeptReadsBack(msg, r);
    }
  }

  /** They parse back exactly if there is no pointer to an owner, or the pointers read as its name. */
  lemma {:induction false} ReplyReadsBackIff(msg: seq<byte>, r: Reply, ls: seq<Label>, ds: seq<Label>)
    requires Readable(r, ls, ds)
    requires |msg| == |ReplyOctets(r)| && msg[2..] == ReplyOctets(r)[2..]
    ensures ReadsBack(msg, r) <==> PointersSpell(msg, AuthorityStart(r), r.authority)
  {
    hide QuestionOctets, AnswersOctets, AuthorityOctets, CountOctets, ReplyOctets, LegalName, Text, AuthorityStart,
      AnswerRecords, AuthorityRecords, Holds, Spells, Readable, QuestionAt, RecordAt, RecordCount, PointerOctets, NameAt;
    if PointersSpell(msg, AuthorityStart(r), r.authority) {
      ReplyRoundTrip(msg, r, ls, ds);
    } else if ReadsBack(msg, r) {
      var at := SecondZone(msg, r, ls, ds);
      var start := DATA_BEGIN + |QuestionOctets(r.question)|;
      var n := |r.answers| + |r.authority|;
      RecordsPrefix(msg, start, |r.answers| + 2, n);
      OwnerOfSecond(r);
      RecordNamed(msg, at);
      PointerSpellsIff(msg, at, AuthorityStart(r), r.authority[0].domain);
    }
  }

  lemma {:induction false} RecordNamed(msg: seq<byte>, at: nat)
    ensures RecordAt(msg, at).Some? ==> NameAt(msg, at).Some? && RecordAt(msg, at).value.0.name == Text(NameAt(msg, at).value)
  {
  }

  /** The pointers do read as the name if the authority section starts in the first 64 octets. */
  lemma {:induction false} EarlyAuthorityIsSpelled(msg: seq<byte>, r: Reply, ls: seq<Label>, ds: seq<Label>)
    requires Readable(r, ls, ds) && AuthorityStart(r) < 64
    requires |msg| == |ReplyOctets(r)| && msg[2..] == ReplyOctets(r)[2..]
    ensures PointersSpell(msg, AuthorityStart(r), r.authority)
  {
    hide QuestionOctets, AnswersOctets, AuthorityOctets, CountOctets, ReplyOctets, LegalName, Text, Holds, Spells, Wire,
      AuthorityStart;
    if r.authority != [] {
      ReplySections(msg, r);
      FirstOwner(msg, AuthorityStart(r), r.authority);
      EncodingSpells(msg, AuthorityStart(r), ds);
    }
  }

  /** Otherwise they may not: if the section starts at a multiple of 64, the pointers lead to the
      client's ID, and with a zero octet there the other owners read as the root. */
  lemma {:induction false} LateAuthorityIsMisread(msg: seq<byte>, r: Reply, ls: seq<Label>, ds: seq<Label>)
    requires Readable(r, ls, ds) && |r.authority| > 1 && AuthorityStart(r) % 64 == 0
    requires |msg| == |ReplyOctets(r)| && msg[2..] == ReplyOctets(r)[2..] && msg[0] == 0
    ensures !ReadsBack(msg, r)
  {
    hide QuestionOctets, AnswersOctets, AuthorityOctets, ReplyOctets, LegalName, Text, Holds, Spells, AuthorityStart, ReadsBack;
    ReplyReadsBackIff(msg, r, ls, ds);
    NamesAreNotEmpty(ds);
    ZeroSpellsRoot(msg, 0, r.authority[0].domain);
  }

  lemma {:induction false} NamesAreNotEmpty(ds: seq<Label>)
    requires LegalName(ds)
    ensures Text(ds) != []
  {
    assert LegalLabel(ds[0]);
  }

  // ---------------------------------------------------------------------------
  // What parse_query makes of it.
  // ---------------------------------------------------------------------------

  lemma {:induction false} TextOfLegal(ls: seq<Label>)
    requires ls != [] && LegalLabels(ls)
    ensures 0 !in Text(ls) && Text(ls) != [] && Text(ls)[|Text(ls)| - 1] != DOT
  {
    assert LegalLabel(ls[0]);
    if |ls| > 1 {
      TextOfLegal(ls[1..]);
    } else {
      assert ls[0][|ls[0]| - 1] in ls[0];
    }
  }

  lemma {:induction false} CStringWhole(s: seq<byte>)
    requires 0 !in s
    ensures CString(s) == s
  {
    CStringStops(s, [0]);
    CStringAt(s + [0], |s|);
    assert |CString(s)| == |s|;
  }

  /** A legal name is parsed as its text in lower case. */
  lemma {:induction false} QueryNameOfLegal(ls: seq<Label>)
    requires LegalName(ls)
    ensures QueryName(Text(ls)) == Lower(Text(ls))
  {
    hide Text;
    TextOfLegal(ls);
    CStringWhole(Text(ls));
  }

  function LowerLabels(ls: seq<Label>): (r: seq<Label>)
    ensures |r| == |ls| && forall k :: 0 <= k < |r| ==> r[k] == Lower(ls[k])
  {
    seq(|ls|, k requires 0 <= k < |ls| => Lower(ls[k]))
  }

  /** Lower-casing labels keeps a name legal and lower-cases its text. */
  lemma {:induction false} LowerKeepsLegal(ls: seq<Label>)
    requires LegalLabels(ls)
    ensures LegalLabels(LowerLabels(ls)) && Text(LowerLabels(ls)) == Lower(Text(ls))
    ensures |Dotted(LowerLabels(ls))| == |Dotted(ls)|
  {
    forall k | 0 <= k < |ls| ensures LegalLabel(LowerLabels(ls)[k]) {
      LowerLegal(ls[k]);
    }
    if ls != [] {
      LowerKeepsLegal(ls[1..]);
      assert LowerLabels(ls)[1..] == LowerLabels(ls[1..]);
      LowerSplits(ls[0], Text(ls[1..]));
    }
  }

  lemma {:induction false} LowerLegal(l: Label)
    requires LegalLabel(l)
    ensures LegalLabel(Lower(l))
  {
    forall b | b in Lower(l) ensures b != DOT && b != 0 {
      var k :| 0 <= k < |l| && Lower(l)[k] == b;
      assert l[k] in l;
    }
  }

  lemma {:induction false} LowerSplits(a: seq<byte>, b: seq<byte>)
    ensures Lower(a + [DOT] + b) == Lower(a) + [DOT] + Lower(b)
  {
  }

  /** parse_query gives back name, type and class of an assembled question in lower case. */
  lemma {:induction false} QuestionParsesBack(msg: seq<byte>, q: Question, ls: seq<Label>, leftover: seq<byte>)
    requires LegalName(ls) && q.name == Text(ls) && Lower(q.name) == q.name && q.qtype < 0x1_0000 && q.qclass < 0x1_0000
    requires DATA_BEGIN <= |msg| && Holds(msg, DATA_BEGIN, QuestionOctets(q)) && ReadU16(msg, 4) != 0
    ensures Parsed(msg, leftover) == Some(ParsedQuery(ReadU16(msg, 2), q))
  {
    hide QuestionOctets, Text, Holds, ReadU16, QuestionAt, NameAt, QueryName;
    QuestionRoundTrip(msg, q, ls);
    QueryNameOfLegal(ls);
  }
}
