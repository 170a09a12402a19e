# DNRD: a model of its hard parts

DNRD is a forwarding and caching DNS proxy. A client's query is answered from a local table, from a
cache, or by up to three upstream servers that are asked at the same time over different interfaces.
This project states what its C code does and proves properties of it, over all inputs and all runs.

* **Names and records** (`NameWalk`, `Records`, `NameCodec`): decompression with its pointer loop
  guard, the record reader, the question parser, and the round trips with the encoder. A name is
  specified by hops over labels and pointers, as RFC 1035 sections 3.1 and 4.1.4 define it.
* **The local master** (`Assembly`, `Master`, `LocalReply`, `ReplyFormat`, `Answers`): the message
  assembler with its patched lengths, the record table, what it makes the master say, and what a
  reader makes of an assembled reply.
* **The query multiplexer** (`QueryProtocol`, `QueryResources`, `QueryReplies`, `QuerySweep`,
  `QueryTimes`, `QueryTable`): a state machine of requests, replies, errors and timeouts with the
  history of replies and messages; theorems over all its runs; and the linked list, ID pool and reply
  handling in place, each method proved to be a step of that machine.
* **Requests and replies** (`Forward`, `ReplyRound`, `ReplyLoop`): the list and the servers together,
  when a request is forwarded, when a reply is handled, and in the main loop over ready sockets.
* **Servers** (`Servers`, `Relay`): circular server lists, the current server of each interface,
  timeout sweeps, retries, and failover while sending.
* **The cache** (`Lib`, `CacheModel`, `CacheRuns`, `Cache`): a doubly linked list that refines a
  sequence of records, which refines a plain list of stored replies.
* **The interface picker** (`Picker`): the multi-pass ordering of server/interface pairs.

Code that works in place is a class or a method over an array, proved against functions on values;
the theorems are about those functions. Time is an input, random numbers are any number in the
range `myrand` can return, sockets are fresh numbers, a successful send is decided by an oracle, and
the library's `qsort` is any function that sorts.

## What turned out differently from what the code or its comments say

* `query_timeout` can leave expired queries on the list: after a deletion the cursor skips the next
  query. `QuerySweep.SweepRemovesAllIff` says exactly when it removes all of them.
* `expire_oldest` removes the most recently used entries; its comments say the oldest.
* `compile_namepointer` keeps six bits of the offset, so that authority sections behind offset 63
  can be misread; `Answers.LocalRepliesReadBackIff` says exactly when they are not, and
  `Answers.LongNameIsMisread` gives a database and a question for which they are.
* `query_add` writes the query's ID in network order for a new query and in host order for a repeated
  one.
* The result of `send2current` tests the interface behind the last one used, not the sends: a query
  that three servers took can be dropped, and one that nobody took be kept
  (`Relay.TakenButNotReported`, `Relay.ReportedButNotTaken`). `Relay.ReportIsSureIff` says exactly when
  it can be relied on.
* `send2current` also counts interfaces that end without a server, whose replies never come
  (`Relay.FewerTakeIt`). `Forward.SendQuery` and `Relay.AllServedIff` say exactly when the count is
  right, and `Forward.KeptQueryEndsIff` that otherwise one reply of each server does not end the query.
* With the last awaited reply every server noted for the query counts as alive, whether it answered
  or not (`Forward.SilentServerIsAliveIff`).
* The loop over ready sockets can read a socket twice, and count its query down for nothing, or pass
  one over; `ReplyLoop.ReadsOnceForAllIff` says exactly when it cannot.
* A reply can overrun the assembly buffer (`Answers.FiftyServersDoNotFit`).
* `read_record` continues inside a record whose data are longer than 252 octets
  (`Records.LongDataIsMissed`).
* A later reply never replaces a cached one for the same question, even if the cached one is negative.
* The picker remembers 8 characters of an interface name. Longer names are picked again in the same
  pass, and a name that a longer one starts with can be passed over; `Picker.PicksOnceIff` and
  `Picker.PassIsMaximalIff` say exactly when that cannot happen.

## Model

| member | source | states |
|---|---|---|
| NameWalk.GetObjName | dnrd-2.20.3/src/dns.c:127-173 | For every message and offset `get_objname` stops and fails exactly if the offset is below 12, outside the message, or the name has no finite expansion within the limits. On success it returns the end of the in-place encoding, inside the message; a non-root name stands in the destination as its dotted labels with a final NUL, the root writes one zero octet before the destination, and nothing else is written. |
| NameWalk.Expand | dnrd-2.20.3/src/dns.c:137-167 | The decoding loop with its depth guard: succeeds if and only if the RFC 1035 section 4.1.4 expansion is finite and within the limits, and then leaves exactly the labels, each with its dot. |
| NameWalk.CopyLabel | dnrd-2.20.3/src/dns.c:161-165 | One label is copied with its dot exactly if all its characters are valid; nothing outside its place changes. |
| NameWalk.DepthGuardIsExact | dnrd-2.20.3/src/dns.c:138-166 | For messages of at most 512 octets: where the guard stops a pointer, wherever that pointer leads, the walk has already visited a position twice and no expansion ends; so it stops no finite name. |
| NameWalk.GuardedPointerHasLooped | dnrd-2.20.3/src/dns.c:146-148 | For messages of any size: as many pointers as the message has octets, the last one not yet followed, mean that a position was visited twice. |
| NameWalk.TakeLabel | dnrd-2.20.3/src/dns.c:157-165 | A label is taken exactly if it fits the message and the buffer and is valid; otherwise no expansion is acceptable. |
| NameWalk.ValidCharIs | dnrd-2.20.3/src/dns.c:48-56 | The table of valid characters: every octet in the shipped tolerant mode, otherwise letters, digits and the hyphen. |
| NameWalk.LongWalkLoops | dnrd-2.20.3/src/dns.c:138-166 | Pigeonhole: a walk of as many hops as the message has octets has visited a position twice. |
| NameWalk.LoopNeverEnds | dnrd-2.20.3/src/dns.c:140-156 | A walk that revisits a position never ends. |
| NameWalk.FiniteNameHasNoLoop | dnrd-2.20.3/src/dns.c:140-156 | A finite expansion visits no position twice. |
| NameWalk.FiniteNameIsShort | dnrd-2.20.3/src/dns.c:138-166 | A finite expansion takes fewer hops, and follows fewer pointers, than the message has octets. |
| NameWalk.EndUnique | dnrd-2.20.3/src/dns.c:140-166 | The number of hops of a finite name is determined, so a name at an offset has one meaning. |
| NameWalk.StandardNamesAreAccepted | dnrd-2.20.3/src/dns.c:131-167 | Every finite name of at most 255 octets in a message of at most 512 octets is accepted. |
| NameWalk.Rejected | dnrd-2.20.3/src/dns.c:140-166 | Once a step leaves the message or the limits, no expansion from the same offset is acceptable: each early failure exit is right. |
| Records.ReadRecord | dnrd-2.20.3/src/dns.c:188-273 | `read_record` succeeds exactly on a well-formed question or record, whose type, class, TTL, data and next index it returns. |
| Records.NextRecordIsExactIffKept | dnrd-2.20.3/src/dns.c:254-269 | The next index is where RFC 1035 section 4.1.3 puts the next record if and only if RDLENGTH is at most the 252 octets the reader keeps. |
| Records.LongDataIsMissed | dnrd-2.20.3/src/dns.c:254-269 | A message with one record of 253 octets on which it is not. |
| Records.ReadSection | dnrd-2.20.3/src/dns.c:327-358 | A section loop reads exactly as many records as counted, or fails with the first that does not read. |
| Records.DumpDnsPacket | dnrd-2.20.3/src/dns.c:290-364 | Succeeds exactly if one question and all counted records read, and ends behind the last of them. |
| Records.RecordsPrefix | dnrd-2.20.3/src/dns.c:327-358 | Reading more records starts with the same ones. |
| Records.ParseQuery | dnrd-2.20.3/src/dns.c:386-449 | `parse_query` succeeds exactly if QDCOUNT is not zero and a question reads; flags, type, class and the lower-cased name without its final dot are those of the message. Of the root the high octet of the flags is cleared and the name is what the buffer held before. |
| Records.NormalizeName | dnrd-2.20.3/src/dns.c:436-446 | The final dot is dropped and the name lower-cased in place; the flags stay. |
| Records.StrNLwr | dnrd-2.20.3/src/lib.c:68-78 | The C string is lower-cased up to maxlen + 1 characters, the rest and the terminator stay. |
| Octets.LowerByteIs | dnrd-2.20.3/src/lib.c:68-78 | Lower-casing changes A to Z into a to z and nothing else. |
| Records.StripDotIs | dnrd-2.20.3/src/dns.c:436-441 | One final dot is dropped, and only a dot. |
| NameCodec.WireIsStandard | dnrd-2.20.3/src/master.c:527-554 | `compile_name` writes the RFC 1035 section 3.1 encoding of every legal name. |
| NameCodec.WireOfLabel | dnrd-2.20.3/src/master.c:527-554 | Of the length of a longer label only six bits are written, and its text as a whole. |
| NameCodec.NameRoundTrip | dnrd-2.20.3/src/master.c:527-554 | Wherever the encoding of a legal name stands behind the header, the decoder reads back its labels and finds its exact end. |
| NameCodec.WalkEncoded | dnrd-2.20.3/src/dns.c:140-166 | Hopping over an encoded name collects its labels one by one. |
| NameCodec.PointerIsExactIff | dnrd-2.20.3/src/master.c:556-562 | An assembled pointer leads back to its offset if and only if the offset is below 64. |
| NameCodec.PointerRoundTrip | dnrd-2.20.3/src/master.c:556-562 | A pointer to an encoded legal name below offset 64 reads as that name and ends after two octets. |
| NameCodec.PointerSpellsIff | dnrd-2.20.3/src/master.c:556-562 | For every offset: an assembled pointer reads as a name if and only if the octets at the offset modulo 64 spell that name. |
| NameCodec.EncodingSpells | dnrd-2.20.3/src/dns.c:140-166 | The encoding of a legal name spells it, for a reader that arrives through a pointer. |
| ReplyFormat.RecordRoundTrip | dnrd-2.20.3/src/dns.c:188-273 | An assembled record reads back with owner, type, class, TTL, data and the index behind its data: RDLENGTH is the size of the data. |
| ReplyFormat.QuestionRoundTrip | dnrd-2.20.3/src/master.c:633-668 | The question of an assembled message reads back as name, type and class. |
| ReplyFormat.QuestionParsesBack | dnrd-2.20.3/src/dns.c:386-449 | `parse_query` gives back name, type and class of an assembled question in lower case. |
| ReplyFormat.QueryNameOfLegal | dnrd-2.20.3/src/dns.c:436-446 | A legal name is parsed as its text in lower case. |
| ReplyFormat.LowerKeepsLegal | dnrd-2.20.3/src/lib.c:68-78 | Lower-casing its labels keeps a name legal and lower-cases its text. |
| ReplyFormat.AnswersRoundTrip | dnrd-2.20.3/src/master.c:807-860 | Every assembled answer reads back, its owner through the pointer to the question. |
| ReplyFormat.AuthorityRoundTrip | dnrd-2.20.3/src/master.c:670-698 | Every assembled authority record reads back under the first record's owner, as far as the pointers spell it. |
| ReplyFormat.RecordsOfZones | dnrd-2.20.3/src/master.c:677-691 | Record k of the authority section has the first record's owner and server k as its data. |
| ReplyFormat.OwnerIsOwnDomainIff | dnrd-2.20.3/src/master.c:677-691 | A server is read under its own domain if and only if that is the first server's domain: the others point to the first owner. |
| ReplyFormat.HeaderFields | dnrd-2.20.3/src/master.c:615-631 | Flags and counts of the finished header read back, each section's count from its own two octets. |
| ReplyFormat.FlagsReadBack | dnrd-2.20.3/src/master.c:615-631 | The flags of a finished reply read back whatever its ID. |
| ReplyFormat.ReplyRoundTrip | dnrd-2.20.3/src/master.c:789-940 | A whole reply reads back: one question, all answers, all authority records, ending at the last octet. |
| ReplyFormat.ReplyReadsBackIff | dnrd-2.20.3/src/master.c:556-562 | A reply whose data the reader keeps reads back if and only if it has at most one authority record or the octets at its authority offset modulo 64 spell the owner. |
| ReplyFormat.AssembledReadsBackIff | dnrd-2.20.3/src/master.c:789-940 | A reply of legal names reads back if and only if no RDATA is longer than 252 octets and the pointers spell the owner. |
| ReplyFormat.EarlyAuthorityIsSpelled | dnrd-2.20.3/src/master.c:556-562 | They do whenever the authority section starts below offset 64. |
| ReplyFormat.LateAuthorityIsMisread | dnrd-2.20.3/src/master.c:556-562 | A failing family: with the section at a multiple of 64 and an ID whose first octet is zero the reply does not read back. |
| Assembly.Assembly.CompileName | dnrd-2.20.3/src/master.c:527-554 | Appends the encoding of the name and returns its offset; everything before stays. |
| Assembly.Assembly.CompileNamePointer | dnrd-2.20.3/src/master.c:556-562 | Appends the two octets of a pointer. |
| Assembly.Assembly.CompileObjectName | dnrd-2.20.3/src/master.c:583-589 | Appends a pointer to the question's name at offset 12. |
| Assembly.Assembly.CompileInt | dnrd-2.20.3/src/master.c:564-571 | Appends a 16 bit number in network order. |
| Assembly.Assembly.CompileLong | dnrd-2.20.3/src/master.c:573-581 | Appends a 32 bit number in network order. |
| Octets.NetworkOrder | dnrd-2.20.3/src/master.c:564-581 | Sixteen and thirty-two bit numbers are written and read high octet first. |
| Assembly.Assembly.StartRdata | dnrd-2.20.3/src/master.c:607-613 | Leaves room for RDLENGTH and remembers where. |
| Assembly.Assembly.EndRdata | dnrd-2.20.3/src/master.c:591-605 | Patches the size of exactly the data assembled since, and nothing else. |
| Assembly.PatchedRecord | dnrd-2.20.3/src/master.c:591-613 | A record with its size patched in afterwards is the record written with its size. |
| Assembly.Assembly.NameRecord | dnrd-2.20.3/src/master.c:808-829 | Appends type, class, TTL, the patched RDLENGTH and a name as data. |
| Assembly.Assembly.AddressRecord | dnrd-2.20.3/src/master.c:834-858 | The same with an address as data. |
| Assembly.Assembly.BeginAssembly | dnrd-2.20.3/src/master.c:633-668 | Starts a message that holds exactly the question. |
| Assembly.Assembly.EndAssembly | dnrd-2.20.3/src/master.c:615-631 | Patches pending data, puts flags and counts in front of the body, which otherwise stays, and sets the length. |
| Master.Database.AddRecord | dnrd-2.20.3/src/master.c:230-238 | Appends one record; all earlier records survive the growth of the array. |
| Master.Database.AddNameIp | dnrd-2.20.3/src/master.c:240-252 | Appends a lower-cased name with its address and the reverse notation of that address; refuses what is no address and then changes nothing. |
| Master.Database.AddDns | dnrd-2.20.3/src/master.c:254-265 | Appends a lower-cased domain with its server. |
| Master.Database.AddAuthority | dnrd-2.20.3/src/master.c:267-277 | Appends a lower-cased authority. |
| Master.Database.NameLookup | dnrd-2.20.3/src/master.c:458-475 | Returns the first record with the name: the hash code comparison changes nothing. |
| Master.ReverseIsExact | dnrd-2.20.3/src/master.c:130-151 | Different addresses have different reverse names. |
| Master.ReverseLookupIsByAddress | dnrd-2.20.3/src/master.c:439-456 | A stored record answers the reverse name of an address if and only if it is a record of that address. |
| Master.ReverseOfOctets | dnrd-2.20.3/src/master.c:130-151 | The reverse notation of the address a.b.c.d is d.c.b.a in decimal. |
| Master.DecimalDigits | dnrd-2.20.3/src/master.c:130-151 | A number from 0 to 255 is written as its decimal digits without leading zeros. |
| Master.Database.PtrLookup | dnrd-2.20.3/src/master.c:439-456 | Returns the first record with the reverse name. |
| Master.Database.AuthorityLookup | dnrd-2.20.3/src/master.c:504-521 | Finds an authority if and only if it is stored. |
| Master.FirstIsFirst | dnrd-2.20.3/src/master.c:458-475 | The first record for a key is stored, fits, and none before it fits; there is none exactly if no record fits. |
| Master.Database.DnsLookup | dnrd-2.20.3/src/master.c:477-502 | Returns the first server record for the name behind the cursor, or nothing if there are none left. |
| Master.SuffixTestIsBelow | dnrd-2.20.3/src/master.c:488-496 | The comparison made by `dns_lookup` says exactly that the name is the domain or ends with it at a label boundary. |
| Master.ServersAreExactlyTheZone | dnrd-2.20.3/src/master.c:477-502 | The records visited are exactly the server records for the name, each once, in insertion order. |
| Master.Database.AutoAuthority | dnrd-2.20.3/src/master.c:749-764 | The loop that appends to the array it scans stops; afterwards every address record has the authority of its reverse zone, all earlier records are unchanged, and no reverse zone was added twice. |
| Master.Database.CoverRecord | dnrd-2.20.3/src/master.c:752-763 | One turn covers one more record, and does nothing for the records the loop itself added. |
| Master.ReverseZoneOfOctets | dnrd-2.20.3/src/master.c:752-764 | The reverse zone of the address a.b.c.d is c.b.a.in-addr.arpa. |
| Master.AddressesAreCovered | dnrd-2.20.3/src/master.c:749-764 | So after the loop c.b.a.in-addr.arpa is an authority for every stored address a.b.c.d. |
| Answers.CompileZone | dnrd-2.20.3/src/master.c:677-691 | Appends one authority record, the first with its owner in full, the others with a pointer. |
| Answers.CursorMoves | dnrd-2.20.3/src/master.c:674-692 | Every call returns the next server of the zone, and nothing exactly after the last one. |
| Answers.CompileDnsRecords | dnrd-2.20.3/src/master.c:670-698 | Appends one record for every server of the zone, in order, counts them, and marks the answer authoritative exactly if there is one. |
| Answers.AnswerName | dnrd-2.20.3/src/master.c:808-829 | The finished message is a reverse answer with its authority section. |
| Answers.AnswerAddress | dnrd-2.20.3/src/master.c:834-858 | The finished message is an address answer with its authority section. |
| Answers.CompileServers | dnrd-2.20.3/src/master.c:871-887 | Appends one answer for every server of the zone, in order, and counts them. |
| Answers.AnswerServers | dnrd-2.20.3/src/master.c:863-899 | The finished message lists every server of the zone as an answer. |
| Answers.AnswerNegative | dnrd-2.20.3/src/master.c:903-936 | A negative reply is made exactly if the master has authority for the name or what follows its first label. |
| Answers.MasterLookup | dnrd-2.20.3/src/master.c:789-940 | The client's packet becomes the reply with its own ID in front, or stays as it was and zero is returned; what the reply says of the records is stated by the rows of `LocalReply`. In buffers of any size the assembly and the copy end exactly at the reply's length: they stay inside theirs if and only if the reply fits. |
| LocalReply.AddressIsGiven | dnrd-2.20.3/src/master.c:834-860 | A question of type A, class IN and opcode zero is answered with the four octets a, b, c, d of the first record with its name; the servers of its zone come with it, and AA is set exactly if there are any. |
| LocalReply.NameIsGiven | dnrd-2.20.3/src/master.c:807-832 | A PTR question for the reverse name of an address is answered with the encoded owner of the first record with that address, under the same conditions and with the same zone and AA. |
| LocalReply.ServersAreGiven | dnrd-2.20.3/src/master.c:863-899 | An NS question is answered with one encoded host for every server of the zone, in order, and AA. |
| LocalReply.ReplyIff | dnrd-2.20.3/src/master.c:804-940 | There is a reply if and only if the question is of class IN, opcode zero and type A, NS, or PTR below in-addr.arpa, and a record answers it or its name or parent is an authority; it is the empty reply with AA if and only if no record answers it. |
| LocalReply.HostLan | dnrd-2.20.3/src/master.c:804-940 | With host.lan at 10.0.0.1 and its reverse zone as authority: the octets that answer 1.0.0.10.in-addr.arpa PTR, and the empty authoritative reply to the same name with type NS. |
| LocalReply.HostLanOctets | dnrd-2.20.3/src/master.c:807-832 | That answer octet by octet behind the ID: flags, counts, question, pointer, type, class, a TTL of one hour and the size of the data. |
| LocalReply.PtrWire | dnrd-2.20.3/src/master.c:527-554 | The octets of the name asked for. |
| LocalReply.ZonesAreRecords | dnrd-2.20.3/src/master.c:477-502 | The zone of a name holds domain and host of its server records; it is empty if and only if no stored domain is the name or a suffix of it at a label boundary. |
| Answers.FiftyServersDoNotFit | dnrd-2.20.3/src/master.c:863-899 | A database whose reply does not: fifty servers of one domain take more than the 600 octets of the assembly buffer. |
| Answers.ReplyShape | dnrd-2.20.3/src/master.c:789-940 | Every reply keeps its question, and its authority section is the zone of the name or empty. |
| Answers.ReplyDataFits | dnrd-2.20.3/src/master.c:789-940 | If no name in the database takes more than 252 octets, the reader keeps the data of every reply. |
| Answers.SuffixIsLegal | dnrd-2.20.3/src/master.c:488-496 | Every domain that serves a legal name is itself a legal name. |
| Answers.LocalRepliesReadBackIff | dnrd-2.20.3/src/master.c:789-940 | For every database and every legal question whose reply fits the assembly buffer: the reply reads back as the records it was made of if and only if no RDATA is longer than 252 octets, and it has no pointer to an owner or the pointers spell it; the latter whenever its authority section starts below 64. |
| Answers.ClientReadsReplyIff | dnrd-2.20.3/src/master.c:789-940 | The same from the packet of the client, in whatever case it asks: the reply is for the lower-cased name, `parse_query` reads that question back, and its records read back under the same condition. |
| Answers.LongNameReply | dnrd-2.20.3/src/master.c:834-858 | A database and a question whose reply starts its authority section at offset 64. |
| Answers.LongNameIsMisread | dnrd-2.20.3/src/master.c:556-562 | Asked with an ID that starts with a zero octet, that reply does not read back. |
| QueryProtocol.ClientGetsItsOwnId | dnrd-2.20.3/src/udp.c:521-523 | A client gets a reply under the ID it asked with and with the octets the server sent. |
| QueryProtocol.RcodeIsInFlags | dnrd-2.20.3/src/dns.h:39-48 | The reply code is the low four bits of the flags word, octets 2 and 3 (RFC 1035 section 4.1.1). |
| QueryProtocol.RepeatKeepsIdIff | dnrd-2.20.3/src/query.c:233-257 | A repeated request goes out under the same ID as the first if and only if both octets of the ID are equal: line 257 converts it, line 235 does not. |
| QueryResources.RunKeepsResources | dnrd-2.20.3/src/query.c:74-201 | In every run: free and live query IDs are a permutation of 0..65535, the descriptor set is the disjoint union of the live queries' sockets and leaked ones, the counter is its size and at most max_sockets + 2, client IDs on the list are distinct. |
| QueryResources.RunInNumbers | dnrd-2.20.3/src/query.c:74-201 | In every run an ID below 65536 is free if and only if no live query has it, a dummy query holds one socket and any other three, and the number of open sockets is counted and at most max_sockets + 2. |
| QueryResources.StepKeeps | dnrd-2.20.3/src/query.c:74-201 | Every step keeps these. |
| QueryResources.PoolNeverRunsEmpty | dnrd-2.20.3/src/query.c:84-88 | When a query may be created an ID is free, for max_sockets up to 65536. |
| QueryResources.NothingLeaksWithoutFailures | dnrd-2.20.3/src/query.c:114-122 | No socket leaks on runs on which socket() does not fail. |
| QueryReplies.RunKeepsHistory | dnrd-2.20.3/src/udp.c:464-616 | In every run the flags, counters and cached failure of each query agree with the replies handled and messages sent so far. |
| QueryReplies.AtMostOneMessage | dnrd-2.20.3/src/udp.c:510-531 | In every run of requests, replies, errors and timeouts a query causes at most one message to its client, a dummy query none. |
| QueryReplies.FirstSuccessWins | dnrd-2.20.3/src/udp.c:510-559 | In every run, once a reply with RCODE zero, read from its flags word, was handled, the one message is the first such reply under the client's ID; otherwise it is the last reply, sent as the last awaited, or the first failure, sent at expiry. |
| QueryReplies.FirstSuccessIsFirst | dnrd-2.20.3/src/udp.c:512-516 | The reply called the first success has RCODE zero, and none handled before it has. |
| QueryReplies.KRepliesEndTheQuery | dnrd-2.20.3/src/udp.c:586-615 | If k servers are awaited, and nothing else happens to the query, it is there with k - n awaited after n < k well-formed replies, and from the k-th on gone for good with exactly one message sent. |
| QueryReplies.LastReplySends | dnrd-2.20.3/src/udp.c:516-531 | The last awaited reply leaves the client with exactly one message. |
| QueryReplies.GoneStaysGone | dnrd-2.20.3/src/query.c:273-288 | A deleted query never comes back, and no message is sent for it any more. |
| QueryReplies.UndisturbedStep | dnrd-2.20.3/src/udp.c:586-615 | What another step does to a live query: nothing, or one reply less to wait for. |
| QuerySweep.SweepLeavesSurvivors | dnrd-2.20.3/src/query.c:291-321 | The state machine's sweep and the list-only one agree. |
| QuerySweep.SweepRemovesOnlyExpired | dnrd-2.20.3/src/query.c:291-321 | Only expired queries are removed, and the others keep their order; `SweepInTimes` says in times which are expired. |
| QuerySweep.SweepRemovesFirstExpired | dnrd-2.20.3/src/query.c:296-318 | The first expired query is always removed. |
| QuerySweep.SweepInTimes | dnrd-2.20.3/src/query.c:291-318 | Every query asked for no longer ago than its ttl stays, and the first one asked for longer ago goes. |
| QueryTimes.TimeIsLastAsked | dnrd-2.20.3/src/query.c:220-270 | In every run a live query carries the time of its last request, the first or a repeated one. |
| QueryTimes.SweptAfterItsTime | dnrd-2.20.3/src/query.c:291-318 | In every run a sweep at a time removes a query only if its last request was more than its ttl before, and removes the first such query. |
| QueryTimes.SweptClientIsTold | dnrd-2.20.3/src/query.c:297-317 | In every run a client's query that a sweep removes leaves its client with exactly one message if a well-formed reply was handled for it, and with none otherwise. |
| QuerySweep.SweepIsPass | dnrd-2.20.3/src/query.c:296-318 | A sweep is a pass that skips the query after each removal, started again exactly if the last query was removed. |
| QuerySweep.PassHalvesRuns | dnrd-2.20.3/src/query.c:296-318 | A pass halves every run of expired queries, and starts again exactly if the last run is odd. |
| QuerySweep.SweepRemovesAllIff | dnrd-2.20.3/src/query.c:291-321 | A sweep removes every expired query if and only if, for some m, the last run of expired ones has 2^m - 1 queries and every run fewer than 2^(m+1). |
| QuerySweep.SweepCanLeaveExpired | dnrd-2.20.3/src/query.c:296-318 | Two expired queries before a live one: the second stays. |
| QuerySweep.SweepHalvesRuns | dnrd-2.20.3/src/query.c:291-321 | A sweep halves every run of expired queries once, and once more for every trailing one bit in the length of the last run. |
| QuerySweep.SweepsRemoveAllIff | dnrd-2.20.3/src/query.c:291-321 | n sweeps at one time remove every expired query if and only if every run is shorter than two to the number of passes they make. |
| QuerySweep.SweepsAreEnough | dnrd-2.20.3/src/query.c:291-321 | In particular n sweeps are enough if no run has 2^n expired queries. |
| QueryTable.QidPool.constructor | dnrd-2.20.3/src/qid.c:24-40 | All IDs are free. |
| QueryTable.QidPool.Get | dnrd-2.20.3/src/qid.c:42-52 | Takes a free ID out of the pool in place, for every random index up to the pointer. |
| QueryTable.QidPool.Return | dnrd-2.20.3/src/qid.c:54-59 | Puts an ID in use back; there is always room. |
| QueryTable.QidPool.FreeSize | dnrd-2.20.3/src/qid.c:42-59 | The pointer counts the free IDs. |
| QueryTable.QueryTable.constructor | dnrd-2.20.3/src/query.c:55-57 | An empty circular list and a full pool: the initial state of a run. |
| QueryTable.QueryTable.QueryCreate | dnrd-2.20.3/src/query.c:74-173 | Opens the wanted sockets and draws an ID, or leaves the sockets opened so far behind. |
| QueryTable.QueryTable.Destroy | dnrd-2.20.3/src/query.c:176-201 | Gives back the ID and closes exactly the query's sockets. |
| QueryTable.QueryTable.FindBefore | dnrd-2.20.3/src/query.c:232-245 | Finds the first query with the client's ID, or the tail. |
| QueryTable.QueryTable.Append | dnrd-2.20.3/src/query.c:261-268 | The circle gains one node behind the tail, which becomes the tail. |
| QueryTable.QueryTable.QueryAdd | dnrd-2.20.3/src/query.c:220-270 | Is the request step of the state machine, and returns the node before the client's query. |
| QueryTable.QueryTable.Unlink | dnrd-2.20.3/src/query.c:273-284 | The circle loses one node and the tail pointer stays the last node. |
| QueryTable.QueryTable.DeleteNext | dnrd-2.20.3/src/query.c:273-288 | Is the deletion of the state machine and keeps the circle and all resources. |
| QueryTable.QueryTable.DigestReply | dnrd-2.20.3/src/udp.c:510-559 | Is the digest step of the state machine. For a client's unanswered query it sends exactly one message, the reply under the client's ID, if RCODE in the reply's flags word is zero or no other reply is awaited; otherwise it sends none and keeps the reply if it is the first failure. |
| QueryTable.QueryTable.CountDownQuery | dnrd-2.20.3/src/udp.c:586-615 | Counts the query down, or deletes it with its last answer; the servers revived then are a matter of `Forward.UdpHandleReply`. |
| QueryTable.QueryTable.AwaitServers | dnrd-2.20.3/src/udp.c:191-192 | Is the step that raises the number of replies a query waits for, and changes nothing else of it. |
| QueryTable.QueryTable.DropNext | dnrd-2.20.3/src/udp.c:281-282 | Is the step that takes an unsent query off the list. |
| QueryTable.QueryTable.LimitLife | dnrd-2.20.3/src/udp.c:647-651 | Is the step that limits a dummy query's life. |
| QueryTable.QueryTable.ExpireNext | dnrd-2.20.3/src/query.c:297-317 | Sends the cached failure if nothing was sent before and deletes the query. |
| QueryTable.QueryTable.QueryTimeout | dnrd-2.20.3/src/query.c:291-321 | Terminates although a deletion can send the cursor back to the head, and is the timeout step of the state machine: every query asked for no longer ago than its ttl stays, in order, the first one asked for longer ago goes, and nothing is added. |
| QueryTable.ArrivalIsStep | dnrd-2.20.3/src/udp.c:472-495 | What arrives for a live query is a possible event, and its step is the reply or the error branch. |
| QueryTable.CheckReplyIs | dnrd-2.20.3/src/check.c:96-122 | A reply is well-formed exactly if it has twelve octets, QR set and the bit checked as Z clear, read from its flags word. |
| Servers.FirstActiveIsUnique | dnrd-2.20.3/src/infnode.c:162-174 | At most one server is the first active one after a start. |
| Servers.MoveOn | dnrd-2.20.3/src/infnode.c:178-186 | If the first active server is given up, the first one after it is the first of the rest. |
| Servers.RetryInTimes | dnrd-2.20.3/src/infnode.c:201-211 | In times: a server given up at least the delay ago is given up anew; if a dummy query went out it is counted, and a request already outstanding keeps its time. |
| Servers.InfNode.InsSrvNode | dnrd-2.20.3/src/srvnode.c:62-67 | The circle gains the node at its place; the current server stays. |
| Servers.InfNode.DelSrvNodeAfter | dnrd-2.20.3/src/srvnode.c:72-77 | The circle loses exactly the next node; the interface stays valid exactly if that was not its current server, whose pointer is left dangling. |
| Servers.InfNode.LastSrvNode | dnrd-2.20.3/src/srvnode.c:125-130 | Returns the last node of the circle. |
| Servers.InfNode.AddSrv | dnrd-2.20.3/src/srvnode.c:108-121 | Handed the last server, as its caller does, it adds an active server at the end, or nothing for a text that is no address. |
| Servers.InfNode.ClearSrvList | dnrd-2.20.3/src/srvnode.c:89-96 | Leaves the head alone in its circle; the pointer to the current server stays, so that the interface is valid afterwards exactly if that was null. |
| Servers.InfNode.StartWithFirst | dnrd-2.20.3/src/main.c:322-323 | The first server is current at the start, and the list head if there is none: the interface is valid exactly if it has a server. |
| Servers.InfNode.NextActive | dnrd-2.20.3/src/infnode.c:162-174 | Terminates with the first active server after the current one, or null exactly if none is active. |
| Servers.InfNode.SetCurrent | dnrd-2.20.3/src/infnode.c:146-156 | Makes an active server, or none, the current one. |
| Servers.InfNode.DeactivateCurrent | dnrd-2.20.3/src/infnode.c:178-186 | Gives up the current server only; the next active one, or null, is current. |
| Servers.InfNode.FailOver | dnrd-2.20.3/src/infnode.c:178-186 | One active server fewer, and none at all if no server is current afterwards. |
| Servers.InfNode.SendOn | dnrd-2.20.3/src/udp.c:178-182 | Stops after at most as many sends as there are active servers (with reactivation on). It ends with the first server behind the old current one that took the message, every failed one given up and nobody else, or with every server given up; only the last server's send time and count change. |
| Servers.InfNode.Revive | dnrd-2.20.3/src/udp.c:440-449 | The server is active and owes nothing; nobody else changes. |
| Servers.InfNode.ReactivateSrvList | dnrd-2.20.3/src/infnode.c:190-198 | Every server is active and owes nothing. |
| Servers.InfNode.RetrySrvList | dnrd-2.20.3/src/infnode.c:201-211 | Exactly the servers inactive for the delay get a dummy query and a new time; those it could be sent to are counted and have a request outstanding; no server changes sides. |
| Servers.InfNode.GiveUp | dnrd-2.20.3/src/relay.c:212-219 | Gives up one server; the current one moves on if it was that. |
| Servers.InfNode.DeactivateStale | dnrd-2.20.3/src/relay.c:207-221 | A server is given up if and only if it was active and had a request outstanding for more than the timeout; if the current one was, the first active one behind it is current. |
| Relay.Relay.DeactivateServers | dnrd-2.20.3/src/relay.c:198-224 | Runs exactly if the interval has passed. Then a server of any interface changes from active to inactive if and only if it had a request outstanding for more than forward_timeout, so that no active server has one; a current server among them makes room for the next active one, the others stay. |
| Relay.Relay.CurrentIsFresh | dnrd-2.20.3/src/relay.c:212-219 | So the server that is current after a sweep has no such request either. |
| Relay.Relay.ReactivateServers | dnrd-2.20.3/src/relay.c:180-196 | Runs exactly if the interval has passed, and then exactly the servers inactive for that long get a dummy query and a new inactivity time, and a send time and count if it went out; the server invariant stays. |
| Relay.Relay.SelectInterface | dnrd-2.20.3/src/relay.c:126-149 | Picks the first interface with an active server and its first active server; all interfaces before it have none, and those behind it are not touched. |
| Relay.Relay.TimeoutCurrent | dnrd-2.20.3/src/relay.c:153-162 | The current server is given up for the next active one if and only if it has a request outstanding for more than forward_timeout, and neither that nor the reactivation interval is zero; otherwise nothing changes. |
| Relay.Relay.ReviveServer | dnrd-2.20.3/src/udp.c:440-449 | A revived server keeps the invariant of all interfaces; no other server changes. |
| Relay.Relay.ReviveNoted | dnrd-2.20.3/src/udp.c:594-604 | So does reviving every server noted for a query: exactly those count as alive and owe nothing. |
| Relay.Relay.SearchServer | dnrd-2.20.3/src/udp.c:330-366 | Finds the first server in list order that the reply can come from, if there is one. |
| Relay.ChosenAreTheFirst | dnrd-2.20.3/src/udp.c:142-170 | The interfaces used are in list order, and a passing interface is left out only behind three used ones. |
| Relay.PassesIff | dnrd-2.20.3/src/udp.c:96-170 | An interface passes if and only if its name equals a matched one, without matched ones a default one, in the first nine characters, or there are neither. |
| Relay.Relay.Send2Current | dnrd-2.20.3/src/udp.c:109-206 | Uses exactly the first three interfaces that pass the special-host or default filter (one for a dummy), notes their servers and leaves every other interface alone; each used one ends with its current server or the first one behind it that was not given up, which has a request outstanding, or with none active. Whether a server takes the message, and what is reported, are both given by the state before and the outcomes of the attempts. |
| Relay.TakenIff | dnrd-2.20.3/src/udp.c:178-192 | A server takes the message if and only if one of the first attempts succeeds, as many as the used interfaces have active servers; without reactivation, if and only if a used interface has a current server. How many take it is given by the same state and outcomes. |
| Relay.ReportIsSureIff | dnrd-2.20.3/src/udp.c:201-205 | Before anything is sent: the report is right whatever becomes of the attempts if and only if no used interface has a server and that is what is reported. Without reactivation a server takes the message exactly if a used interface has one. |
| Relay.TakenButNotReported | dnrd-2.20.3/src/udp.c:201-205 | Three interfaces take the message and the fourth has no server: failure is reported. |
| Relay.ReportedButNotTaken | dnrd-2.20.3/src/udp.c:201-205 | No interface has a server but the list head does: nothing is sent and success is reported. |
| Relay.AllServedIff | dnrd-2.20.3/src/udp.c:178-192 | Before anything is sent: without reactivation every used interface ends with a server if and only if each has one. With it, some outcome of the attempts makes it so if and only if each has one, and every outcome only if none is used. |
| Relay.AllServedNeeds | dnrd-2.20.3/src/udp.c:178-192 | For given outcomes: every used interface ends with a server only if each has one, and it is enough that every attempt succeeds. |
| Relay.FewerTakeIt | dnrd-2.20.3/src/udp.c:184-192 | Of two interfaces one has no server: two are counted and one server takes the message. |
| Relay.FailedSendIsCounted | dnrd-2.20.3/src/udp.c:178-192 | Two interfaces with a server each, and the first attempt fails: again two are counted and one takes it. |
| Forward.SendQuery | dnrd-2.20.3/src/udp.c:109-206 | The query waits for one more reply from every interface used, at most three, and notes their servers. That is the number of servers that took the message if and only if the state before and the outcomes of the attempts serve every used interface; without reactivation, if and only if each had a server. A used interface without a server makes it too many whatever happens. |
| Forward.UdpForward | dnrd-2.20.3/src/udp.c:249-292 | A request without a local answer amounts to the request step with an ID that was free, the sending step with the number of interfaces used, and, if a failure is reported and `master_dontknow` has an answer, the step that drops the query. |
| Forward.ForwardInRun | dnrd-2.20.3/src/udp.c:249-292 | A forwarded request continues a run of the multiplexer, so that all that holds over its runs holds afterwards; a new query that is kept waits for all interfaces used. |
| Forward.NewQueryWaits | dnrd-2.20.3/src/udp.c:249-292 | A request for a new query leaves it on the list, waiting for as many replies as interfaces were used. |
| Forward.KeptQueryEndsIff | dnrd-2.20.3/src/udp.c:586-615 | A kept query that gets at most one well-formed reply from each server that took it, and is otherwise undisturbed, is ended by replies if and only if every used interface was served and all replied. Otherwise it is still there, and waits for the interfaces that were not served. |
| Forward.UdpHandleReply | dnrd-2.20.3/src/udp.c:464-616 | Is the reply step of the multiplexer, for well-formed replies and for errors. What it sends is said by the flags word of the reply. The sender is the first server with the address and interface the packet came from, if there is one. Of the servers exactly the sender, and with the last awaited well-formed reply all noted for the query come to count as alive; the server invariant stays. |
| Forward.SuccessIsForwardedAtOnce | dnrd-2.20.3/src/udp.c:510-531 | With two replies awaited, one with flags 0x8180 is forwarded at once and one with flags 0x8183 is not. |
| Forward.SilentServerIsAliveIff | dnrd-2.20.3/src/udp.c:594-604 | A server that did not send the reply counts as alive after it if and only if it was noted for the query and the reply is the last awaited one. |
| Forward.SecondReplyIsLast | dnrd-2.20.3/src/udp.c:586-615 | With two replies awaited, a second one from the same server is the last. |
| ReplyLoop.ReadReplies | dnrd-2.20.3/src/relay.c:313-328 | The loop over the ready sockets ends although deletions send its cursor back, continues a run of the multiplexer, and reads the sockets that `ReplyRound` says. |
| ReplyLoop.ReadsOnceForAllIff | dnrd-2.20.3/src/relay.c:313-328 | In every reachable state: each ready socket is read exactly once, whatever is ready, if and only if no query awaits so few replies that its sockets can delete it, or there is only one query and it awaits as many as it has sockets. |
| ReplyRound.OnceForAllIff | dnrd-2.20.3/src/relay.c:313-328 | The same for every list of sockets and counters. |
| ReplyRound.NoDeletionIsOnce | dnrd-2.20.3/src/relay.c:313-328 | If no query can be deleted every ready socket is read once. |
| ReplyRound.NextIsPassedOver | dnrd-2.20.3/src/relay.c:313-328 | Behind a query that can be deleted a ready socket can be passed over. |
| ReplyRound.FirstIsReadAgain | dnrd-2.20.3/src/relay.c:313-328 | If the last query can be deleted and the first cannot, a socket can be read twice. |
| ReplyRound.LastIsNotRead | dnrd-2.20.3/src/relay.c:313-328 | A single query that awaits fewer replies than it has sockets can leave one unread. |
| ReplyLoop.ReadTwice | dnrd-2.20.3/src/relay.c:313-328 | Two queries with one ready socket each, of which the second is deleted: the first socket is read again. |
| ReplyLoop.FailureIsLost | dnrd-2.20.3/src/udp.c:472-483 | If the first reply of such a query was a failure, the second read finds nothing, the query is deleted and its client is told nothing. |
| Lib.GetStringCode | dnrd-2.20.3/src/lib.c:194-210 | Computes the hash code with its 32 bit wrap-around. |
| Lib.EqualUpToCaseEqualCodes | dnrd-2.20.3/src/lib.c:194-210 | Strings equal up to case have equal codes: the prefilter hides no match. |
| Cache.Cache.constructor | dnrd-2.20.3/src/cache.c:407-447 | An empty cache with the watermarks asked for. |
| Cache.Cache.AppendCx | dnrd-2.20.3/src/cache.c:130-147 | The doubly linked list gains the entry at its end. |
| Cache.Cache.RemoveCx | dnrd-2.20.3/src/cache.c:149-166 | The doubly linked list loses exactly this entry, at either end or inside. |
| Cache.Cache.CacheDnspacket | dnrd-2.20.3/src/cache.c:182-214 | Appends a record for a reply with a name, under the question `parse_query` reads off the packet, and does nothing otherwise; the record expires 3600 seconds from now if the packet counts answers in octets 6 and 7, else 300. |
| Cache.Cache.Search | dnrd-2.20.3/src/cache.c:250-257 | Finds the earliest stored match, although it compares codes first. |
| Cache.Cache.CacheLookup | dnrd-2.20.3/src/cache.c:233-282 | Copies the earliest stored match for the question `parse_query` reads off the packet behind its ID and leaves the rest of the buffer; renews the record exactly if it is positive. |
| Cache.Cache.Walk | dnrd-2.20.3/src/cache.c:364-379 | Leaves exactly the records that are not overdue, in order, and counts them. |
| Cache.Cache.ExpireOldest | dnrd-2.20.3/src/cache.c:316-341 | Removes the first entries of the sorted order, in any order they stand in the list. |
| Cache.Cache.CacheExpire | dnrd-2.20.3/src/cache.c:349-397 | Is the expiry step of the record sequence: nothing within 300 seconds of the last one, and afterwards at most high-watermark records, all unexpired and at most 21600 seconds old. |
| Cache.MatchIffSameCode | dnrd-2.20.3/src/cache.c:251-255 | Comparing the code first changes no match. |
| CacheModel.FirstMatch | dnrd-2.20.3/src/cache.c:250-257 | The index returned matches and none before it does. |
| CacheModel.KeptAreInOrder | dnrd-2.20.3/src/cache.c:364-379 | The walk keeps exactly the records that are neither past their expiry nor older than 21600 seconds nor from the future, in their order. |
| CacheModel.EvictionTakesTheRecentlyUsed | dnrd-2.20.3/src/cache.c:299-341 | Exactly low-watermark records are left, in order, and every removed one was used at least as recently as every one left. |
| CacheRuns.OldestGoIff | dnrd-2.20.3/src/cache.c:305-341 | The documented direction, oldest first, holds if and only if nothing is left or all records were last used at the same time. |
| CacheRuns.LeastRecentlyUsedStays | dnrd-2.20.3/src/cache.c:299-341 | Of two records the one used longer ago stays. |
| CacheRuns.CacheInit | dnrd-2.20.3/src/cache.c:407-447 | The watermarks satisfy 0 <= low <= high, whatever the option; a sensible pair is taken as it is. |
| CacheRuns.WatermarksAre | dnrd-2.20.3/src/cache.c:407-447 | The watermarks of each form of the option: 800 and 1000 by default, and three quarters of the high one where the low one is missing or too large. |
| CacheRuns.SweepLeavesNothingOverdue | dnrd-2.20.3/src/cache.c:349-397 | After a sweep that ran every record is unexpired and at most 21600 seconds old, and there are at most high-watermark records. |
| CacheRuns.RunKeepsTimes | dnrd-2.20.3/src/cache.c:182-282 | In every run: a record whose packet counts answers in octets 6 and 7 expires 3600 seconds after its last use; any other 300 seconds after it was stored, however often it is used. |
| CacheRuns.HitRenews | dnrd-2.20.3/src/cache.c:259-264 | In every run a hit renews a record if and only if its packet counts answers, and changes no other record. |
| CacheRuns.CountDecides | dnrd-2.20.3/src/cache.c:120 | The cache takes the same packets for answers as the reader of the sections. |
| CacheRuns.AssembledLife | dnrd-2.20.3/src/cache.c:205-210 | An assembled reply is kept for 3600 seconds if it has answers and for 300 otherwise. |
| CacheRuns.StoreIs | dnrd-2.20.3/src/cache.c:182-214 | Only packets with QR set and a name are stored, with the times of now. |
| CacheRuns.HitIs | dnrd-2.20.3/src/cache.c:233-257 | Only queries with QR clear, a name and class IN are looked up; the hit is the first record with the same type and class and a name equal up to case. |
| CacheRuns.ExpireIs | dnrd-2.20.3/src/cache.c:349-397 | The expiry step in times and numbers. |
| CacheRuns.AnswersWereStored | dnrd-2.20.3/src/cache.c:182-282 | In every run every record is a reply that was stored earlier under a matching question, at its time of creation, octet for octet. |
| CacheRuns.StepRefinesPlainList | dnrd-2.20.3/src/cache.c:130-166 | On the plain list of replies storing appends, looking up changes nothing, and expiry only takes replies out. |
| CacheRuns.LookupFindsTheEarliest | dnrd-2.20.3/src/cache.c:250-257 | A lookup answers with the earliest stored reply in that list that fits. |
| CacheRuns.EarlierReplyWins | dnrd-2.20.3/src/cache.c:182-214 | A newly stored reply is found if and only if it fits and no earlier one does. |
| Picker.IsIfDuplicate | sort_interfaces/sort_interfaces/sort_interfaces.cpp:30-38 | Finds a name among those remembered exactly if it is there. |
| Picker.EthAtIs | sort_interfaces/sort_interfaces/sort_interfaces.cpp:82-88 | The interface name starts at the first "eth" of a pair. |
| Picker.PickIntf | sort_interfaces/sort_interfaces/sort_interfaces.cpp:82-102 | Picks the first interface of an address that is not remembered in this pass. |
| Picker.PickPass | sort_interfaces/sort_interfaces/sort_interfaces.cpp:74-106 | Empties exactly the picked cells of the table and appends the picks; there is more to look for exactly if something was picked. |
| Picker.PassConserves | sort_interfaces/sort_interfaces/sort_interfaces.cpp:79-106 | A pass moves pairs from the table to the output and loses or invents none. |
| Picker.UsedIff | sort_interfaces/sort_interfaces/sort_interfaces.cpp:89-93 | What a pass remembers: a name, if it has at most 8 characters and is the start of the name of a pick. |
| Picker.NoInterfaceTwice | sort_interfaces/sort_interfaces/sort_interfaces.cpp:89-93 | A pass takes an interface twice only if its name is longer than the 8 characters remembered. |
| Picker.PicksOnceIff | sort_interfaces/sort_interfaces/sort_interfaces.cpp:79-106 | For given pairs: no pass over any table of them takes an interface twice if and only if no name is longer than 8 characters. |
| Picker.LongNamesAreForgottenIff | sort_interfaces/sort_interfaces/sort_interfaces.cpp:89-93 | In any pass: an address whose only interface was already picked is picked too if and only if the name is longer than 8 characters. |
| Picker.PassIsMaximal | sort_interfaces/sort_interfaces/sort_interfaces.cpp:79-106 | Of every address at most one pair is picked, and none only if all its interfaces are remembered, as far as names are. |
| Picker.PassIsMaximalIff | sort_interfaces/sort_interfaces/sort_interfaces.cpp:79-106 | For given pairs: in every pass over every table of them an address is passed over only if all its interfaces were picked in the pass, if and only if no name longer than 8 characters starts with the whole of another. |
| Picker.ShadowedExample | sort_interfaces/sort_interfaces/sort_interfaces.cpp:89-93 | After eth123456 the address on eth12345 is passed over although nothing was picked on that interface. |
| Picker.OrderIsPermutation | sort_interfaces/sort_interfaces/sort_interfaces.cpp:67-107 | The passes end, and the output is a permutation of all pairs in the table. |
| Picker.SortInterfaces | sort_interfaces/sort_interfaces/sort_interfaces.cpp:40-107 | The loop over passes terminates with every pair in the output, in that order, and none left in the table. |

## Left out

- NameWalk.GetObjName: the root name is shown to write one zero octet before the destination, as line 169 does, and to leave the destination as it was.
- Answers.MasterLookup: the buffers must have room for the reply; what the original overwrites when it does not fit its 600 octets is not modelled.
- Forward.UdpHandleReply: every interface has a server; the original would compare the sender with the list head of one that has none.
- ReplyLoop.ReadReplies: descriptor zero is no socket of a query, as the zeroed socket fields of the list head would otherwise be taken for it; requests and time-outs are other steps of the main loop.
- QueryReplies.KRepliesEndTheQuery: is about well-formed replies only; a receive error or malformed reply as the last answer deletes the query without sending a cached failure.
- Relay.Relay.SelectInterface: returns the list head if no interface has an active server; what the code makes of the head's own server pointer there is not modelled.
- Relay.Relay.constructor: takes interfaces whose current server is null or active; an interface without servers, whose pointer starts out at its list head, is not one of them.
- Relay.Relay.DeactivateServers: the interface list is a fixed sequence without its dummy head.
- Cache.Cache.CacheLookup: `ignore_inactive_cache_hits` is off; the hit and miss counters are not kept.
- Cache.Cache.CacheDnspacket: the cache is not called from the reply steps of the multiplexer.
- CacheRuns.CacheInit: the option is given as numbers; texts that overflow an int are left out.
- Picker.SortInterfaces: a table of five addresses with five interfaces each, the part of the array the program scans.
- Relay.Relay.Send2Current: the interfaces matched by a special host are an input; the buffer the names are copied to is not modelled.
- QueryTable.QueryTable.QueryCreate: binding, socket options, random ports and the port exclusion list are left out.
- Octets are read and written on a little-endian host.
- `tcp.c`, `rand.c`, logging, signals, configuration files and the growing of server lists at run time are left out.
- `sort()` in `infnode.c`, `make_cname` and `cname2asc` are unfinished or not on a live path.
- `master_dontknow`, `set_notfound` and `set_srvfail` are not modelled; whether `master_dontknow` has an answer is an input.
