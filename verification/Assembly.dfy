/** The message assembler of master.c: octets are appended at a moving position, and the size of
    a record's data is patched in once the data is known. */
module Assembly {
  import opened Octets
  import opened NameWalk
  import opened Records
  import opened NameCodec
  import opened ReplyFormat

  const ASSEMBLY_SIZE := 600
  const FLAG_QR := 0x8000
  const FLAG_AA := 0x0400

  lemma {:induction false} IntOctets(number: nat)
    ensures U16(number % 0x1_0000) == [number / 256 % 256, number % 256]
  {
    var q, r := number / 0x1_0000, number % 0x1_0000;
    assert r == r / 256 * 256 + r % 256;
    Quotient(number, q * 256 + r / 256, r % 256);
    Quotient(q * 256 + r / 256, q, r / 256);
  }

  lemma {:induction false} Quotient(n: nat, a: nat, b: nat)
    requires n == a * 256 + b && b < 256
    ensures n / 256 == a && n % 256 == b
  {
  }

  lemma {:induction false} Reassociate(a: seq<byte>, b: seq<byte>, c: seq<byte>, d: seq<byte>)
    ensures a + b + c == a + (b + c) && (b + c) + d == b + (c + d) && c + [] == c
  {
  }

  class Assembly {
    const packet: array<byte>
    var here: nat
    var rdata: Option<nat>
    var flags: nat
    var question: nat
    var ancount: nat
    var nscount: nat
    var len: nat

    ghost predicate Valid()
      reads this
    {
      && DATA_BEGIN <= here <= packet.Length
      && (rdata.Some? ==> DATA_BEGIN <= rdata.value && rdata.value + 2 <= here)
    }

    /** What has been assembled after the header. */
    ghost function Body(): (b: seq<byte>)
      requires Valid()
      reads this, packet
      ensures |b| == here - DATA_BEGIN
    {
      packet[DATA_BEGIN..here]
    }

    /** The original has one buffer of ASSEMBLY_SIZE octets. */
    constructor (size: nat)
      requires DATA_BEGIN <= size
      ensures Valid() && fresh(packet) && packet.Length == size && Body() == [] && rdata == None
    {
      packet := new byte[size](_ => 0);
      here, rdata, flags, question, ancount, nscount, len := DATA_BEGIN, None, 0, 0, 0, 0, 0;
    }

    /** The assembly functions do no size checking: their callers must leave room. */
    method Put(b: byte)
      requires Valid() && here + 1 <= packet.Length
      modifies this`here, packet
      ensures Valid() && Body() == old(Body()) + [b]
    {
      packet[here] := b;
      here := here + 1;
    }

    /** compile_name: the offset of the name is returned. */
    method CompileName(name: seq<byte>) returns (offset: nat)
      requires Valid() && here + |Wire(name)| <= packet.Length
      modifies this`here, packet
      ensures Valid() && offset == old(here) && Body() == old(Body()) + Wire(name)
    {
      hide Wire;
      offset := here;
      var rest := name;
      ghost var done: seq<byte> := [];
      while rest != []
        invariant Valid() && here + |Wire(rest)| <= packet.Length
        invariant done + Wire(rest) == Wire(name) && Body() == old(Body()) + done
        decreases |rest|
      {
        var n := CountLabel(rest);
        if n == 0 {
          break;
        }
        WireUnfolds(rest);
        ghost var l := [n % 64] + rest[..n];
        CompileLabel(rest[..n]);
        Reassociate(old(Body()), done, l, Wire(AfterLabel(rest)));
        done := done + l;
        rest := AfterLabel(rest);
      }
      WireEnds(rest);
      Put(0);
      Reassociate(old(Body()), done, [0], []);
    }

    /** One label: its length octet, of which six bits are kept, and its characters. */
    method CompileLabel(l: seq<byte>)
      requires Valid() && here + 1 + |l| <= packet.Length
      modifies this`here, packet
      ensures Valid() && Body() == old(Body()) + ([|l| % 64] + l)
    {
      ghost var body := Body();
      Put(|l| % 64);
      CopyChars(l);
      assert body + [|l| % 64] + l == body + ([|l| % 64] + l);
    }

    method CopyChars(s: seq<byte>)
      requires Valid() && here + |s| <= packet.Length
      modifies this`here, packet
      ensures Valid() && Body() == old(Body()) + s
    {
      for i := 0 to |s|
        invariant Valid() && here + |s| - i <= packet.Length
        invariant Body() == old(Body()) + s[..i]
      {
        Put(s[i]);
      }
    }

    method CompileNamePointer(offset: nat)
      requires Valid() && here + 2 <= packet.Length
      modifies this`here, packet
      ensures Valid() && Body() == old(Body()) + PointerOctets(offset)
    {
      Put(0xC0);
      Put(offset % 64);
    }

    /** compile_objectname: a pointer to the question's name. */
    method CompileObjectName()
      requires Valid() && here + 2 <= packet.Length
      modifies this`here, packet
      ensures Valid() && Body() == old(Body()) + [0xC0, 0x0C]
    {
      Put(0xC0);
      Put(0x0C);
    }

    method CompileInt(number: nat)
      requires Valid() && here + 2 <= packet.Length
      modifies this`here, packet
      ensures Valid() && Body() == old(Body()) + U16(number % 0x1_0000)
    {
      hide U16;
      IntOctets(number);
      Put(number / 256 % 256);
      Put(number % 256);
    }

    method CompileLong(number: nat)
      requires Valid() && here + 4 <= packet.Length && number < 0x1_0000_0000
      modifies this`here, packet
      ensures Valid() && Body() == old(Body()) + U32(number)
    {
      hide U16;
      var high, low := number / 0x1_0000, number % 0x1_0000;
      assert high % 0x1_0000 == high && low % 0x1_0000 == low;
      CompileInt(high);
      CompileInt(low);
    }

    method StartRdata()
      requires Valid() && here + 2 <= packet.Length
      modifies this`here, this`rdata, packet
      ensures Valid() && Body() == old(Body()) + [0, 0] && rdata == Some(old(here))
    {
      var mark := here;
      CompileInt(0);
      rdata := Some(mark);
    }

    /** The body with the size of pending data patched in. */
    ghost function Patched(): seq<byte>
      requires Valid()
      reads this, packet
    {
      if rdata == None then Body() else
      var a := rdata.value - DATA_BEGIN;
      var size := |Body()| - (a + 2);
      Body()[..a] + U16(size % 0x1_0000) + Body()[a + 2..]
    }

    /** end_rdata: patch the size of the data assembled since start_rdata. */
    method EndRdata()
      requires Valid()
      modifies this`rdata, packet
      ensures Valid() && rdata == None && Body() == old(Patched())
    {
      if rdata.Some? {
        hide U16;
        var size := here - (rdata.value + 2);
        IntOctets(size);
        packet[rdata.value] := size / 256 % 256;
        packet[rdata.value + 1] := size % 256;
      }
      rdata := None;
    }

    /** begin_assembly: a fresh message holding the question. */
    method BeginAssembly(q: Question)
      requires DATA_BEGIN + |QuestionOctets(q)| <= packet.Length
      modifies this, packet
      ensures Valid() && rdata == None && Body() == QuestionOctets(q)
      ensures flags == FLAG_QR && question == 1 && ancount == 0 && nscount == 0
    {
      hide Wire, U16;
      flags, question, ancount, nscount, rdata := FLAG_QR, 1, 0, 0, None;
      forall i | 0 <= i < packet.Length {
        packet[i] := 0;
      }
      here := DATA_BEGIN;
      var _ := CompileName(q.name);
      CompileInt(q.qtype);
      CompileInt(q.qclass);
      assert Body() == [] + Wire(q.name) + U16(q.qtype % 0x1_0000) + U16(q.qclass % 0x1_0000);
    }

    /** Type, class and lifetime of a record, and the start of its data. */
    method RecordHead(rtype: nat)
      requires Valid() && here + 10 <= packet.Length
      modifies this`here, this`rdata, packet
      ensures Valid() && rdata == Some(old(here) + 8) && Body() == old(Body()) + Head(rtype) + [0, 0]
    {
      hide U16, U32;
      CompileInt(rtype);
      CompileInt(CLASS_INET);
      CompileLong(DEFAULT_TTL);
      Sections(old(Body()), U16(rtype % 0x1_0000), U16(CLASS_INET), U32(DEFAULT_TTL));
      StartRdata();
    }

    /** A record after its owner, with a name as its data. */
    method NameRecord(rtype: nat, host: seq<byte>)
      requires Valid() && here + 10 + |Wire(host)| <= packet.Length
      modifies this`here, this`rdata, packet
      ensures Valid() && rdata == None && Body() == old(Body()) + Fixed(rtype, Wire(host))
    {
      hide Wire, Fixed;
      RecordHead(rtype);
      var _ := CompileName(host);
      PatchedRecord(old(Body()), rtype, Wire(host));
      EndRdata();
    }

    /** A record after its owner, with an address as its data. */
    method AddressRecord(rtype: nat, ip: nat)
      requires Valid() && here + 14 <= packet.Length && ip < 0x1_0000_0000
      modifies this`here, this`rdata, packet
      ensures Valid() && rdata == None && Body() == old(Body()) + Fixed(rtype, U32(ip))
    {
      hide U32, Fixed;
      RecordHead(rtype);
      CompileLong(ip);
      PatchedRecord(old(Body()), rtype, U32(ip));
      EndRdata();
    }

    /** end_assembly: the header goes in front of the body. */
    method EndAssembly()
      requires Valid()
      modifies this`rdata, this`len, packet
      ensures Valid() && rdata == None && len == here && Body() == old(Patched())
      ensures packet[2..DATA_BEGIN] == U16(flags % 0x1_0000) + U16(question % 0x1_0000) + U16(ancount % 0x1_0000)
        + U16(nscount % 0x1_0000) + U16(0)
    {
      hide U16;
      EndRdata();
      ghost var tail, size := packet[DATA_BEGIN..], here - DATA_BEGIN;
      assert Body() == tail[..size];
      StoreHeader();
      assert Body() == packet[DATA_BEGIN..][..size];
      len := here;
    }

    /** Flags and counts go behind the ID. */
    method StoreHeader()
      requires DATA_BEGIN <= packet.Length
      modifies packet
      ensures packet[DATA_BEGIN..] == old(packet[DATA_BEGIN..])
      ensures packet[2..DATA_BEGIN] == U16(flags % 0x1_0000) + U16(question % 0x1_0000) + U16(ancount % 0x1_0000)
        + U16(nscount % 0x1_0000) + U16(0)
    {
      hide U16;
      StoreU16(2, flags);
      StoreU16(4, question);
      StoreU16(6, ancount);
      StoreU16(8, nscount);
      StoreU16(10, 0);
    }

    method StoreU16(i: nat, n: nat)
      requires DATA_BEGIN <= packet.Length && 2 <= i && i + 2 <= DATA_BEGIN
      modifies packet
      ensures packet[2..i + 2] == old(packet[2..i]) + U16(n % 0x1_0000)
      ensures packet[DATA_BEGIN..] == old(packet[DATA_BEGIN..])
    {
      hide U16;
      IntOctets(n);
      packet[i] := n / 256 % 256;
      packet[i + 1] := n % 256;
    }
  }

  /** Everything of a record between its owner and its RDLENGTH. */
  function Head(rtype: nat): (w: seq<byte>)
    ensures |w| == 8
  {
    U16(rtype % 0x1_0000) + U16(CLASS_INET) + U32(DEFAULT_TTL)
  }

  lemma {:induction false} Sections(a: seq<byte>, b: seq<byte>, c: seq<byte>, d: seq<byte>)
    ensures a + b + c + d == a + (b + c + d)
  {
  }

  /** Patching the size into a finished record gives the record. */
  lemma {:induction false} PatchedRecord(body: seq<byte>, rtype: nat, rdata: seq<byte>)
    ensures var w := body + Head(rtype) + [0, 0] + rdata; var a := |body| + 8;
      w[..a] + U16(|rdata| % 0x1_0000) + w[a + 2..] == body + Fixed(rtype, rdata)
  {
    hide U16, U32;
  }

  method CountLabel(name: seq<byte>) returns (n: nat)
    ensures n == LabelLen(name)
  {
    n := 0;
    while n < |name| && name[n] != DOT
      invariant n <= |name| && DOT !in name[..n]
    {
      n := n + 1;
    }
    assert name == name[..n] + name[n..];
    LabelLenAt(name[..n], name[n..]);
  }
}
