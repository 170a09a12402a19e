/** Questions and resource records of a DNS message: read_record, dump_dnspacket's reading
    loop and parse_query (dns.c), proved against RFC 1035 sections 4.1.2 and 4.1.3. */
module Records {
  import opened Octets
  import opened NameWalk

  const NAME_SIZE := 256
  const DATA_KEPT := 252
  const CLASS_INET := 1

  datatype Question = Question(name: seq<byte>, qtype: nat, qclass: nat)
  datatype Record = Record(name: seq<byte>, rtype: nat, rclass: nat, ttl: nat, data: seq<byte>)
  datatype Message = Message(question: Question, records: seq<Record>, end: nat)

  // ---------------------------------------------------------------------------
  // What the octets mean.
  // ---------------------------------------------------------------------------

  /** The labels of the name at pos, if the decoder accepts it. */
  ghost function NameAt(msg: seq<byte>, pos: nat): (r: Option<seq<Label>>)
    ensures r.Some? ==> InPlaceEnd(msg, pos) <= |msg|
  {
    if DATA_BEGIN <= pos < |msg| && exists n: nat :: Accepted(msg, pos, n, NAME_SIZE, true) then
      var n: nat :| Accepted(msg, pos, n, NAME_SIZE, true);
      AcceptedFits(msg, pos, n);
      Some(Hops(msg, pos, n).value.labels)
    else None
  }

  lemma {:induction false} AcceptedFits(msg: seq<byte>, pos: nat, n: nat)
    requires pos < |msg| && Accepted(msg, pos, n, NAME_SIZE, true)
    ensures InPlaceEnd(msg, pos) <= |msg|
  {
    InPlaceInside(msg, pos, n, 0);
  }

  lemma {:induction false} InPlaceInside(msg: seq<byte>, pos: nat, n: nat, m: nat)
    requires pos < |msg| && Ends(msg, pos, n) && m <= n && Hops(msg, pos, m).Some?
    ensures InPlaceEnd(msg, Hops(msg, pos, m).value.at) <= |msg|
    decreases n - m
  {
    hide Target;
    if m < n {
      WalkPrefix(msg, pos, m + 1, n);
      if LabelAt(msg, Hops(msg, pos, m).value.at) {
        InPlaceInside(msg, pos, n, m + 1);
      }
    }
  }

  lemma {:induction false} NameAtIs(msg: seq<byte>, pos: nat, n: nat)
    requires DATA_BEGIN <= pos < |msg| && Accepted(msg, pos, n, NAME_SIZE, true)
    ensures NameAt(msg, pos) == Some(Hops(msg, pos, n).value.labels)
  {
    forall k: nat | Accepted(msg, pos, k, NAME_SIZE, true) ensures k == n {
      EndUnique(msg, pos, k, n);
    }
  }

  ghost function QuestionAt(msg: seq<byte>, pos: nat): (r: Option<(Question, nat)>)
    ensures r.Some? ==> r.value.1 <= |msg|
  {
    match NameAt(msg, pos)
    case None => None
    case Some(ls) =>
      var i := InPlaceEnd(msg, pos);
      if i + 4 > |msg| then None
      else Some((Question(Text(ls), ReadU16(msg, i), ReadU16(msg, i + 2)), i + 4))
  }

  /** One resource record; of a longer RDATA only DATA_KEPT octets are kept, and the next index
      counts the kept ones (dns.c lines 260-269). */
  ghost function RecordAt(msg: seq<byte>, pos: nat): (r: Option<(Record, nat)>)
    ensures r.Some? ==> r.value.1 <= |msg|
  {
    match QuestionAt(msg, pos)
    case None => None
    case Some((q, i)) =>
      if i + 6 > |msg| then None else
      var size := ReadU16(msg, i + 4);
      if i + 6 + size > |msg| then None else
      var kept := if size > DATA_KEPT then DATA_KEPT else size;
      Some((Record(q.name, q.qtype, q.qclass, ReadU32(msg, i), msg[i + 6..i + 6 + kept]), i + 6 + kept))
  }

  ghost function RecordsAt(msg: seq<byte>, pos: nat, count: nat): Option<(seq<Record>, nat)> {
    if count == 0 then Some(([], pos))
    else match RecordsAt(msg, pos, count - 1)
      case None => None
      case Some((rs, i)) =>
        match RecordAt(msg, i)
        case None => None
        case Some((r, next)) => Some((rs + [r], next))
  }

  /** The loops run to a count read as a signed 16 bit number. */
  function Count(msg: seq<byte>, i: nat): nat
    requires i + 2 <= |msg|
  {
    if ReadU16(msg, i) < 0x8000 then ReadU16(msg, i) else 0
  }

  function RecordCount(msg: seq<byte>): nat
    requires DATA_BEGIN <= |msg|
  {
    Count(msg, 6) + Count(msg, 8) + Count(msg, 10)
  }

  /** A message with one question, as dump_dnspacket reads it. */
  ghost function MessageAt(msg: seq<byte>): Option<Message>
    requires DATA_BEGIN <= |msg|
  {
    match QuestionAt(msg, DATA_BEGIN)
    case None => None
    case Some((q, i)) =>
      match RecordsAt(msg, i, RecordCount(msg))
      case None => None
      case Some((rs, end)) => Some(Message(q, rs, end))
  }

  /** RDLENGTH of the record whose fixed part starts at i, and where RFC 1035 section 4.1.3 puts
      the next record. */
  lemma {:induction false} NextRecordIsExactIffKept(msg: seq<byte>, pos: nat)
    requires RecordAt(msg, pos).Some?
    ensures InPlaceEnd(msg, pos) + 10 <= |msg|
    ensures var i := InPlaceEnd(msg, pos);
      RecordAt(msg, pos).value.1 == i + 10 + ReadU16(msg, i + 8) <==> ReadU16(msg, i + 8) <= DATA_KEPT
  {
  }

  // ---------------------------------------------------------------------------
  // The readers.
  // ---------------------------------------------------------------------------

  /** rr_t.  mem holds the two octets of flags in little-endian order, then the name buffer. */
  class RR {
    const mem: array<byte>
    var rtype: nat
    var rclass: nat
    var ttl: nat
    var data: seq<byte>

    ghost predicate Valid()
      reads this, mem
    {
      mem.Length == 2 + NAME_SIZE && 0 in mem[2..]
    }

    constructor ()
      ensures Valid() && fresh(mem)
    {
      mem := new byte[2 + NAME_SIZE](_ => 0);
      rtype, rclass, ttl, data := 0, 0, 0, [];
      new;
      assert mem[2..][0] == 0;
    }

    function Flags(): nat
      requires mem.Length == 2 + NAME_SIZE
      reads mem
    {
      mem[1] as int * 256 + mem[0]
    }

    /** What parse_query leaves here. */
    ghost function Result(): ParsedQuery
      requires Valid()
      reads this, mem
    {
      ParsedQuery(Flags(), Question(Name(), rtype, rclass))
    }

    /** The name buffer as a C string. */
    function Name(): seq<byte>
      requires mem.Length == 2 + NAME_SIZE
      reads mem
    {
      CString(mem[2..])
    }
  }

  /** read_record (dns.c). */
  method ReadRecord(msg: seq<byte>, index: nat, question: bool, rr: RR) returns (next: int)
    requires rr.Valid()
    modifies rr, rr.mem
    ensures next < 0 ==> next == -1
    ensures question ==> (0 <= next <==> QuestionAt(msg, index).Some?)
    ensures !question ==> (0 <= next <==> RecordAt(msg, index).Some?)
    ensures 0 <= next && question ==>
      var (q, end) := QuestionAt(msg, index).value;
      next == end && rr.rtype == q.qtype && rr.rclass == q.qclass
    ensures 0 <= next && !question ==>
      var (r, end) := RecordAt(msg, index).value;
      next == end && rr.rtype == r.rtype && rr.rclass == r.rclass && rr.ttl == r.ttl && rr.data == r.data
    ensures 0 <= next && NameAt(msg, index).value != [] ==>
      var text := Text(NameAt(msg, index).value);
      |text| < NAME_SIZE && rr.mem[2..|text| + 3] == text + [0]
    ensures 0 <= next ==> rr.Valid()
  {
    hide Hops, Accepted, Text, InPlaceEnd;
    var i, n := GetObjName(msg, index, rr.mem, 2, NAME_SIZE, true);
    if i < 0 || i + 4 > |msg| {
      return -1;
    }
    NameAtIs(msg, index, n);
    ghost var text := Text(NameAt(msg, index).value);
    if NameAt(msg, index).value == [] {
      assert rr.mem[2..] == old(rr.mem[2..]);
    } else {
      assert rr.mem[2..][|text|] == rr.mem[2..|text| + 3][|text|] == 0;
    }
    rr.rtype := ReadU16(msg, i);
    i := i + 2;
    rr.rclass := ReadU16(msg, i);
    i := i + 2;
    if question {
      return i;
    }
    if i + 6 > |msg| {
      return -1;
    }
    rr.ttl := ReadU32(msg, i);
    i := i + 4;
    var size := ReadU16(msg, i);
    i := i + 2;
    if i + size > |msg| {
      return -1;
    }
    if size > DATA_KEPT {
      size := DATA_KEPT;
    }
    rr.data := msg[i..i + size];
    next := i + size;
  }

  lemma {:induction false} RecordsStop(msg: seq<byte>, pos: nat, m: nat, n: nat)
    requires m <= n && RecordsAt(msg, pos, m).None?
    ensures RecordsAt(msg, pos, n).None?
  {
    if m < n {
      RecordsStop(msg, pos, m, n - 1);
    }
  }

  /** Reading more records starts with the same ones. */
  lemma {:induction false} RecordsPrefix(msg: seq<byte>, pos: nat, m: nat, n: nat)
    requires m <= n && RecordsAt(msg, pos, n).Some?
    ensures |RecordsAt(msg, pos, n).value.0| == n
    ensures RecordsAt(msg, pos, m).Some? && RecordsAt(msg, pos, m).value.0 == RecordsAt(msg, pos, n).value.0[..m]
  {
    hide RecordAt;
    if n > 0 {
      RecordsPrefix(msg, pos, if m < n then m else n - 1, n - 1);
    }
  }

  /** One of the three section loops of dump_dnspacket, starting after done records. */
  method ReadSection(msg: seq<byte>, index: nat, count: nat, rr: RR, ghost start: nat, ghost done: nat)
    returns (next: int)
    requires rr.Valid() && RecordsAt(msg, start, done).Some? && RecordsAt(msg, start, done).value.1 == index
    modifies rr, rr.mem
    ensures 0 <= next <==> RecordsAt(msg, start, done + count).Some?
    ensures 0 <= next ==> RecordsAt(msg, start, done + count).value.1 == next && rr.Valid()
  {
    hide RecordAt;
    next := index;
    for k := 0 to count
      invariant rr.Valid() && RecordsAt(msg, start, done + k).Some?
      invariant RecordsAt(msg, start, done + k).value.1 == next
    {
      next := ReadRecord(msg, next, false, rr);
      if next < 0 {
        RecordsStop(msg, start, done + k + 1, done + count);
        return;
      }
    }
  }

  /** dump_dnspacket (dns.c) without its printing: does the whole message read? */
  method DumpDnsPacket(msg: seq<byte>, rr: RR) returns (rc: int, index: int)
    requires rr.Valid() && DATA_BEGIN <= |msg|
    modifies rr, rr.mem
    ensures rc == 0 <==> MessageAt(msg).Some?
    ensures rc == 0 ==> index == MessageAt(msg).value.end
  {
    hide RecordAt, QuestionAt;
    index := ReadRecord(msg, DATA_BEGIN, true, rr);
    if index < 0 {
      return -1, index;
    }
    ghost var start: nat := index;
    var an, ns, ar := Count(msg, 6), Count(msg, 8), Count(msg, 10);
    index := ReadSection(msg, index, an, rr, start, 0);
    if index < 0 {
      RecordsStop(msg, start, an, an + ns + ar);
      return -1, index;
    }
    index := ReadSection(msg, index, ns, rr, start, an);
    if index < 0 {
      RecordsStop(msg, start, an + ns, an + ns + ar);
      return -1, index;
    }
    index := ReadSection(msg, index, ar, rr, start, an + ns);
    rc := if index < 0 then -1 else 0;
  }

  function StripDot(s: seq<byte>): seq<byte> {
    if s != [] && s[|s| - 1] == DOT then s[..|s| - 1] else s
  }

  lemma {:induction false} StripDotIs(s: seq<byte>)
    ensures StripDot(s + [46]) == s && (s == [] || s[|s| - 1] != 46 ==> StripDot(s) == s)
  {
  }

  /** What parse_query makes of a decoded name: the C string, without a final dot, in lower case. */
  function QueryName(text: seq<byte>): seq<byte> {
    Lower(StripDot(CString(text)))
  }

  lemma {:induction false} CStringAt(s: seq<byte>, n: nat)
    requires n < |s| && s[n] == 0 && 0 !in s[..n]
    ensures CString(s) == s[..n]
  {
    assert s == s[..n] + s[n..];
    CStringStops(s[..n], s[n..]);
  }

  lemma {:induction false} CStringInside(s: seq<byte>)
    requires 0 in s
    ensures |CString(s)| < |s| && forall k :: 0 <= k < |CString(s)| ==> s[k] != 0
  {
    var c := CString(s);
    assert forall k :: 0 <= k < |c| ==> s[k] == c[k] && c[k] in c;
  }

  /** Lower-casing the first i characters of a buffer's string lower-cases its C string. */
  lemma {:induction false} LoweredPrefix(s: seq<byte>, t: seq<byte>, i: nat)
    requires 0 in s && i <= |CString(s)| && |t| == |s|
    requires forall k :: 0 <= k < |s| ==> t[k] == if k < i then LowerByte(s[k]) else s[k]
    ensures CString(t) == Lower(CString(s)[..i]) + CString(s)[i..] && 0 in t
  {
    CStringInside(s);
    var n := |CString(s)|;
    assert t[n] == 0;
    forall k | 0 <= k < n ensures t[..n][k] != 0 {
      assert s[k] != 0;
    }
    CStringAt(t, n);
  }

  /** strnlwr (lib.c) on the string at mem[base..]: at most maxlen + 1 characters change. */
  method StrNLwr(mem: array<byte>, base: nat, maxlen: nat)
    requires base <= mem.Length && 0 in mem[base..]
    modifies mem
    ensures var s := old(CString(mem[base..]));
      var n := if |s| <= maxlen then |s| else maxlen + 1;
      CString(mem[base..]) == Lower(s[..n]) + s[n..]
    ensures mem[..base] == old(mem[..base]) && 0 in mem[base..]
  {
    hide CString;
    ghost var s := mem[base..];
    CStringInside(s);
    var i := 0;
    while i <= maxlen && mem[base + i] != 0
      invariant i <= |CString(s)| && i <= maxlen + 1
      invariant forall x :: base <= x < mem.Length ==>
        mem[x] == if x < base + i then LowerByte(s[x - base]) else s[x - base]
      invariant forall x :: 0 <= x < base ==> mem[x] == old(mem[x])
      decreases |s| - i
    {
      CStringInside(s);
      mem[base + i] := LowerByte(mem[base + i]);
      i := i + 1;
    }
    LoweredPrefix(s, mem[base..], i);
  }

  /** Lines 436-446 of dns.c: drop a final dot, then lower the name. */
  method NormalizeName(rr: RR)
    requires rr.Valid()
    modifies rr.mem
    ensures rr.Valid() && rr.mem[..2] == old(rr.mem[..2])
    ensures rr.Name() == Lower(StripDot(old(rr.Name())))
  {
    hide CString;
    ghost var s := rr.mem[2..];
    CStringInside(s);
    var k := |rr.Name()|;
    if k > 0 && rr.mem[2 + k - 1] == DOT {
      rr.mem[2 + k - 1] := 0;
      assert rr.mem[2..][..k - 1] == s[..k - 1];
      assert rr.mem[2..][k - 1] == 0;
      CStringAt(rr.mem[2..], k - 1);
    }
    assert rr.Name() == StripDot(CString(s));
    StrNLwr(rr.mem, 2, NAME_SIZE);
  }

  lemma {:induction false} StoredText(mem: seq<byte>, text: seq<byte>)
    requires |text| + 1 <= |mem| && mem[..|text| + 1] == text + [0]
    ensures 0 in mem && CString(mem) == CString(text)
  {
    assert mem[|text|] == mem[..|text| + 1][|text|] == 0;
    var n := |CString(text)|;
    assert mem[..n] == (text + [0])[..n] == CString(text);
    assert mem[n] == (text + [0])[n];
    CStringAt(mem, n);
  }

  /** What parse_query reads off a packet. */
  datatype ParsedQuery = ParsedQuery(flags: nat, question: Question)

  /** The root name's terminator lands on the octet before the name buffer, which is the high octet
      of the flags; the buffer keeps what was left in it. */
  ghost function Parsed(msg: seq<byte>, leftover: seq<byte>): Option<ParsedQuery>
    requires DATA_BEGIN <= |msg|
  {
    if ReadU16(msg, 4) == 0 then None
    else match QuestionAt(msg, DATA_BEGIN)
      case None => None
      case Some((q, _)) => Some(
        if NameAt(msg, DATA_BEGIN) == Some([]) then
          ParsedQuery(ReadU16(msg, 2) % 256, Question(Lower(StripDot(leftover)), q.qtype, q.qclass))
        else ParsedQuery(ReadU16(msg, 2), Question(QueryName(q.name), q.qtype, q.qclass)))
  }

  /** The flags and the name of parse_query. */
  method ReadHead(msg: seq<byte>, rr: RR) returns (i: int)
    requires DATA_BEGIN <= |msg| && rr.Valid()
    modifies rr.mem
    ensures i < 0 <==> NameAt(msg, DATA_BEGIN).None?
    ensures 0 <= i ==> rr.Valid() && i == InPlaceEnd(msg, DATA_BEGIN)
    ensures 0 <= i && NameAt(msg, DATA_BEGIN).value != [] ==>
      rr.Flags() == ReadU16(msg, 2) && rr.Name() == CString(Text(NameAt(msg, DATA_BEGIN).value))
    ensures 0 <= i && NameAt(msg, DATA_BEGIN).value == [] ==>
      rr.Flags() == ReadU16(msg, 2) % 256 && rr.Name() == old(rr.Name())
  {
    hide Hops, Accepted, Text, InPlaceEnd, CString, StripDot;
    rr.mem[0], rr.mem[1] := msg[3], msg[2];
    assert rr.mem[2..] == old(rr.mem[2..]);
    label before:
    ghost var n;
    i, n := GetObjName(msg, DATA_BEGIN, rr.mem, 2, NAME_SIZE, true);
    if i < 0 {
      return;
    }
    NameAtIs(msg, DATA_BEGIN, n);
    ghost var text := Text(NameAt(msg, DATA_BEGIN).value);
    if NameAt(msg, DATA_BEGIN).value != [] {
      assert rr.mem[2..][..|text| + 1] == rr.mem[2..|text| + 3];
      StoredText(rr.mem[2..], text);
    } else {
      assert rr.mem[2..] == old@before(rr.mem[2..]);
    }
  }

  /** parse_query (dns.c): zero on success. */
  method ParseQuery(msg: seq<byte>, rr: RR) returns (rc: int)
    requires DATA_BEGIN <= |msg| && rr.Valid()
    modifies rr, rr.mem
    ensures rc == 0 <==> Parsed(msg, old(rr.Name())).Some?
    ensures rc == 0 ==> rr.Valid() && Parsed(msg, old(rr.Name())).value == rr.Result()
  {
    hide Hops, Accepted, Text, InPlaceEnd, CString, StripDot;
    if ReadU16(msg, 4) == 0 {
      return -1;
    }
    var i := ReadHead(msg, rr);
    if i < 0 || i + 4 > |msg| {
      return -1;
    }
    rr.rtype, rr.rclass := ReadU16(msg, i), ReadU16(msg, i + 2);
    label decoded:
    NormalizeName(rr);
    assert rr.mem[0] == rr.mem[..2][0] == old@decoded(rr.mem[0]);
    assert rr.mem[1] == rr.mem[..2][1] == old@decoded(rr.mem[1]);
    rc := 0;
  }

  // ---------------------------------------------------------------------------
  // An input on which the next record is missed.
  // ---------------------------------------------------------------------------

  /** A header, one record of the root with 253 octets of data, and nothing else. */
  const LONG_DATA: seq<byte> := seq(276, i => if i == 22 then 253 else 0)

  /** It reads, and the next record is looked for one octet before the end of the message. */
  lemma {:induction false} LongDataIsMissed()
    ensures RecordAt(LONG_DATA, DATA_BEGIN).Some? && RecordAt(LONG_DATA, DATA_BEGIN).value.1 == |LONG_DATA| - 1
    ensures InPlaceEnd(LONG_DATA, DATA_BEGIN) + 10 + ReadU16(LONG_DATA, InPlaceEnd(LONG_DATA, DATA_BEGIN) + 8) == |LONG_DATA|
  {
    assert Hops(LONG_DATA, DATA_BEGIN, 0) == Some(Walk(DATA_BEGIN, [], 0));
    assert Accepted(LONG_DATA, DATA_BEGIN, 0, NAME_SIZE, true);
    NameAtIs(LONG_DATA, DATA_BEGIN, 0);
  }
}
