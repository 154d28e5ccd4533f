# A model of the mDNS engine in crates/mdns, with proofs

This project models the multicast DNS engine of the repository in Dafny and proves what its design
and the RFCs it follows (1035, 6762 and 6763) promise of it.

- **Packets.** `DnsName`, `Wire`, `PacketWriter`, `Encoding`, `Packing`, `PacketBuilder`: the writer
  with name compression, rollback and spilling over several packets. `NeedlessSplit`: where
  packets begin. `NameReader`, `PacketReader`: the parser. `RoundTrip`, `MessageRoundTrip`: the parser
  undoes the writer. `WireFields`: field by field, and byte by byte on an example.
  `OffsetWrap`: where 16-bit offsets stop being enough. `TxtCodec`: TXT properties.
- **Responder.** `Tiebreak`, `WireOrder`, `Duel`, `Probes`, `Renaming`, `LongNames`, `EscapedNames`,
  `StaleNames`, `Conflicts`, `Waiters`, `ProbeQueries`, `RegistryState`, `RegistrySteps`, `HostRewrite`, `DnsRegistry`, `RegistryRuns`,
  `Announce`: probing, tiebreaks packet by packet, conflicts and renames, announcing, and what holds over all
  runs. `RateLimit`: one multicast per record and second.
- **Querier.** `RecordLife`, `KnownAnswers`, `CacheState`, `DnsCache`: lives, refreshes and flushes of cached records,
  and known answers. `RunLoop`, `Daemon`: the main loop, its timers and its queues. `HostQueries`: when the
  queries for a host name end. `ProbeTimers`: the timers of probes.

Classes stand for the objects that the source updates in place; their methods are proved against
functions and relations on values, and the theorems are about these. Time is passed in or read from a
clock that does not go back; random delays are arbitrary values in their ranges; what comes from
sockets, channels and listeners is a parameter or an arbitrary choice.

## What turned out otherwise than one might expect

- The compression table can survive a rollback: a service type of about 64 KiB wraps the 16-bit offset
  (`OffsetWrap.LongTypeLeavesEntry`). Exactly when is `RollbackRestoresIff`.
- A record that is dropped as too big still closes the packet before it
  (`NeedlessSplit.NeedlessSplitIff`, `DroppedAnswerSplitsPackets`); the documentation of `to_packets`
  says that a new packet begins when the current one is full.
- Instance names with dots or backslashes are escaped in the daemon but come back unescaped from the wire.
  For such a service no known answer ever suppresses (`RecordLife.KnownAnswerSuppression`), no tiebreak
  takes place (`Duel.GivesWayIff`), and a conflict with a peer of the same name is not seen
  (`EscapedNames.ConflictIsSeenIff`). The peer that does hit its probe is one whose instance is called as
  ours is escaped; the rename that follows cuts our instance in two if it has a dot in front of its last
  byte (`EscapedNames.OtherNameRenamesUs`).
- A known answer exactly half-way through an even TTL is listed but does not suppress
  (`RecordLife.KnownAnswerSuppression`).
- RFC 6762 section 8.2 orders rdata by its wire form, the daemon by its text; for `ab.local.` and
  `b.local.` they differ (`WireOrder.HostsInOtherOrder`, `OrdersAgreeIff`).
- Each packet of a probing query is a query of its own for the host that it arrives at: only records that share
  a packet with their question count in a tiebreak (`ProbeQueries.ReceivedTells`, `Duel.OneGivesWayIff`). Two
  hosts that probe with one TXT record longer than a packet never give way to each other
  (`Duel.BigTextsDecideNothing`).
- Two hosts with the same service on a host name like `a..local.` both give way to each other
  (`Duel.TwinsOnDoubleDot`, `TwinsGiveWayIff`), unless its first label is too long to be sent
  (`Duel.LongTwinsStay`).
- A known answer suppresses only in the packet that holds the question (`KnownAnswers.SilentIff`).
- Records that a conflict does not touch stay under the old name and become active there, while the service asks
  for them anew under the new one (`StaleNames.StaleIsLeftBehind`, `StaleStays`).
- If the daemon is late by 250 ms in all, a probe ends with fewer than three queries
  (`Probes.ThreeQueriesIffOnTime`). A probe that is started again for a new host name may send four, some
  before its start (`RegistryRuns.RestartIsEarlyIff`). A record that joins a probe late is not probed for
  750 ms (`Announce.LateRecordsJoinIff`).
- A lost tiebreak sets no timer for the new start, and the timer of a new probe is taken over only on some
  paths (`ProbeTimers.StepKeepsCovered`, `StepKeepsAwaited`).
- The timeout of a host resolver ends its queries only if every query before it is executed in time
  (`HostQueries.TimeoutEndsQueriesIff`): a query that is left when the resolver is removed finds none and
  goes on for as long as the listener lives. So it is after a timeout of at most 10 ms
  (`ShortTimeoutNeverEnds`), for every name with capitals (`CapitalsNeverEnd`: a resolver is filed in lower
  case but looked up as given), and after every stop (`StopNeverEnds`).
- Each answer of a response draws its own time for the probes it starts; one that a later answer starts again,
  at a later time, may send more than three queries, some before its start
  (`RegistryRuns.ResponseStartsTogetherIff`).
- A new name may be too long to be sent; its records then become active unprobed
  (`LongNames.FirstConflictTooLongIff`, `UnsentBecomesActive`).
- Expired SRV and TXT records that no PTR record leads to stay in the cache (`CacheState.ExpiredLeftIff`).
- The number in a new name wraps at 2^32, as it does in a release build; a debug build would stop there
  (`Renaming.NamesNeverRepeat`).

## Model

| member | source | states |
|---|---|---|
| `DnsName.EscapeInstanceName` | crates/mdns/src/service_info.rs:80-98 | The loop puts a backslash before each dot and backslash of an instance name and changes nothing else: it computes `Escape`, which `InstanceStaysOneLabel` is about |
| `DnsName.ParseEscapedName` | crates/mdns/src/dns_parser.rs:1616-1661 | The scanning loop gives the labels of an escaped name: a backslash takes the next byte as it is, a dot ends a label, and empty labels vanish |
| `DnsName.InstanceStaysOneLabel` | crates/mdns/src/dns_parser.rs:1616-1661 | For every instance name and every service type, escaping the instance and joining it with a dot to the type gives the raw instance as one label in front of the labels of the type (none if the instance is empty) |
| `DnsName.EscapeExample` | crates/mdns/src/service_info.rs:80-98 | `a.b\c` is escaped as `a\.b\\c` |
| `DnsName.SameLowerIff` | crates/mdns/src/dns_cache.rs:223-298 | Two names have the same lower-case form iff they differ at most in the case of ASCII letters |
| `DnsName.TextRoundTrip` | crates/mdns/src/dns_parser.rs:1688-1728 | The dotted text of a list of labels without dot and backslash has these labels again |
| `Wire.CompressionNeverLonger` | crates/mdns/src/dns_parser.rs:1688-1728 | Whatever the table holds, a compressed name takes no more bytes than the same name written in full |
| `Wire.ItemGrows` | crates/mdns/src/dns_parser.rs:1568-1604 | Writing a question or record keeps all table entries, and each new one points at or behind the start of the item, as long as offsets fit in 16 bits |
| `NameReader.BudgetIsEnough` | crates/mdns/src/dns_parser.rs:2723-2819 | For every input, a read of a name that ends at all ends within one step for each byte of the message and one more, so that the budgeted reader agrees with the unbounded loop wherever that terminates |
| `NameReader.SafeReadAgrees` | crates/mdns/src/dns_parser.rs:2723-2819 | The reader of the source agrees with a strict one that only follows pointers to before the start of the piece it reads, whenever the strict one succeeds |
| `NameReader.SafeReadStable` | crates/mdns/src/dns_parser.rs:1606-1608 | What reads strictly at an offset still reads the same after bytes are appended and after the 12 header bytes are patched |
| `NameReader.LabelsRead` | crates/mdns/src/dns_parser.rs:1688-1728 | The label writer, from any table whose entries read back as their keys: what it appends reads back, from the start of the name, as the dotted text of the labels, and its new entries read back as their keys |
| `NameReader.NameReadsBack` | crates/mdns/src/dns_parser.rs:1688-1728 | Round trip of one name and the compression invariant: after the write the reader gives the dotted text and stops at the end, and every table entry is below 0x4000 and reads back as its key and a dot |
| `PacketWriter.OutPacket.WriteName` | crates/mdns/src/dns_parser.rs:1688-1728 | Refuses exactly the names with a label above 63 bytes, before it writes anything; otherwise buffer and table become those of the name encoding |
| `PacketWriter.OutPacket.WriteQuestion` | crates/mdns/src/dns_parser.rs:1540-1557 | The result is exact for every input; a success appends the encoding of the question; an error leaves the buffer as it was, and the table as it was if offsets fit in 16 bits, otherwise the table that `OffsetWrap.RollbackRestoresIff` is about |
| `PacketWriter.OutPacket.WriteRData` | crates/mdns/src/dns_parser.rs:952-957 | The rdata of each record type: exactly its encoding is appended, or a name in it is too long |
| `PacketWriter.OutPacket.WriteRecord` | crates/mdns/src/dns_parser.rs:1568-1604 | For every record, done, too long or full is decided exactly; a committed record has its true rdata length in the length field; an error leaves the buffer as it was, and the table as it was if offsets fit in 16 bits, otherwise the table that `OffsetWrap.RollbackRestoresIff` is about |
| `PacketWriter.OutPacket.Rollback` | crates/mdns/src/dns_parser.rs:1559-1563 | Cuts the buffer at `start` and drops exactly the table entries that point at or behind it |
| `PacketWriter.OutPacket.WriteHeader` | crates/mdns/src/dns_parser.rs:1786-1793 | Overwrites the first 12 bytes with id, flags and the four counts in network order, and no other byte |
| `PacketWriter.OutPacket.SetTruncated` | crates/mdns/src/dns_parser.rs:1759-1784 | Sets the truncation bit of the header and changes no other bit |
| `OffsetWrap.RollbackRestoresIff` | crates/mdns/src/dns_parser.rs:1559-1563 | For every question and record: a failed write leaves the table as it was iff no label written before the first suffix that is in the table starts at an offset that, modulo 65536, lies in front of the item; the condition is on the labels, the position and the keys of the table only |
| `OffsetWrap.LabelsGain` | crates/mdns/src/dns_parser.rs:1700-1727 | Which keys the table gains from a name, and the exact length of its compressed form, from the labels and the known keys |
| `OffsetWrap.LongTypeLeavesEntry` | crates/mdns/src/dns_parser.rs:1700-1719 | A service type of some 64 kilobytes ending in `._tcp.local.`, as browsing accepts, for which it does not: the failed PTR question leaves an entry in an empty packet |
| `Encoding.EncodeIsSound` | crates/mdns/src/dns_parser.rs:1688-1728 | The compression invariant in every reachable packet within pointer range: each table entry is below 0x4000, inside the packet, and reads back as its key |
| `Encoding.CountsAreExact` | crates/mdns/src/dns_parser.rs:1531-1538 | In every packet within pointer range the four counts are the numbers of items of their sections, and none wraps at 16 bits |
| `Packing.AloneIsSmallest` | crates/mdns/src/dns_parser.rs:1829-1880 | An item that fits behind others also fits in a packet of its own, so that dropping what does not fit an empty packet loses nothing that could have been sent |
| `Packing.PackingIsExact` | crates/mdns/src/dns_parser.rs:1829-1898 | The packets are consecutive stretches of the message, each with exactly the encodable items of its stretch in order, at most `max` bytes or a lone record within the IP ceiling, not empty unless the only one, and closed because the next item did not fit |
| `Packing.PackingLosesNothing` | crates/mdns/src/dns_parser.rs:2217-2247 | All packets together hold exactly the encodable items of the message, once and in order: an item is dropped iff a label is above 63 bytes, or it is a question too big for an empty packet, or a record too big for the ceiling |
| `NeedlessSplit.NextPacketBegins` | crates/mdns/src/dns_parser.rs:1829-1880 | Over any cut of a message into packets, packet k + 1 begins with the first item kept from the place where packet k was closed; that is the item at this very place iff it can be sent |
| `NeedlessSplit.NeedlessSplitIff` | crates/mdns/src/dns_parser.rs:1829-1880 | A packet begins with an item that had room in the one before iff the item at which that one was closed is dropped and the next item kept has room there; what was dropped then is too big for a packet of its own |
| `NeedlessSplit.NothingDroppedSplitsNone` | crates/mdns/src/dns_parser.rs:1829-1880 | In a message in which every item can be sent or has too long a label, that is, of which nothing is dropped for its size, no packet begins for nothing |
| `PacketBuilder.Builder.WriteAndCount` | crates/mdns/src/dns_parser.rs:1829-1845 | Writes an item behind the items of the current packet and counts it iff it was written; the current packet is again the encoding of its items |
| `PacketBuilder.Builder.SendAlone` | crates/mdns/src/dns_parser.rs:1850-1880 | Raises the limit to the IP ceiling for a record that is too big for an empty packet, and closes the packet if it fits there, as the packing plan says |
| `PacketBuilder.Builder.Add` | crates/mdns/src/dns_parser.rs:1829-1880 | One item more, from every reachable state: the builder again holds what the packing plan for all items seen so far says |
| `PacketBuilder.Builder.Flush` | crates/mdns/src/dns_parser.rs:1883-1890 | Seals the current packet with its true header and starts an empty one |
| `PacketBuilder.Builder.Finish` | crates/mdns/src/dns_parser.rs:1892-1917 | Returns the sealed packets of the plan, the truncation bit set in all but the last of a query |
| `PacketBuilder.ToPackets` | crates/mdns/src/dns_parser.rs:2217-2247 | The builder loops refine the packing plan: the bytes of packet k are the header and the encoding of the items that the plan puts there |
| `NeedlessSplit.DroppedAnswerSplitsPackets` | crates/mdns/src/dns_parser.rs:2217-2247 | Such a message for all limits: a question, an answer of 9000 bytes that is dropped, and a small answer go into two packets although one holds both |
| `PacketReader.DnsIncoming.ReadName` | crates/mdns/src/dns_parser.rs:2723-2819 | The reading loop computes the name function: same text, same end, same errors |
| `PacketReader.DnsIncoming.ReadQuestions` | crates/mdns/src/dns_parser.rs:2402-2430 | The loop reads as many questions as the header says, or stops at the error where the function stops |
| `PacketReader.DnsIncoming.ReadRecord` | crates/mdns/src/dns_parser.rs:2448-2603 | One record by type, TTL 0 read as 1 in responses, a record of an unknown type skipped by its length, a length that disagrees refused |
| `PacketReader.DnsIncoming.ReadRecords` | crates/mdns/src/dns_parser.rs:2448-2603 | The loop over the records of a section, with the error cases of the function |
| `PacketReader.OtherTypesAreSkipped` | crates/mdns/src/dns_parser.rs:2560-2603 | A record of another type than A, CNAME, PTR, TXT, AAAA and SRV is skipped by its length, and what follows it is read as if it were not there |
| `PacketReader.RecordEndsAsItSays` | crates/mdns/src/dns_parser.rs:2505-2603 | Whatever the bytes are: a record that is read ends where its length says, inside the packet, and addresses have lengths 4 and 16 |
| `PacketReader.DnsIncoming.ReadAll` | crates/mdns/src/dns_parser.rs:2269-2312 | The whole parser computes `Parse`, for which the round trip is proved |
| `RoundTrip.QuestionBack` | crates/mdns/src/dns_parser.rs:1540-1557 | A question written behind any sound packet reads back with its dotted name, type, class and flush bit, whatever follows it |
| `RoundTrip.RecordBack` | crates/mdns/src/dns_parser.rs:1568-1604 | A record written behind any sound packet reads back with dotted names, type, class, cache-flush bit, TTL and rdata, and the reader stands right behind it |
| `MessageRoundTrip.PacketBack` | crates/mdns/src/dns_parser.rs:2269-2312 | A sealed packet within pointer range parses, with the items it holds in their sections, and the reader ends at its last byte |
| `MessageRoundTrip.MessageReadsBack` | crates/mdns/src/dns_parser.rs:2217-2247 | Round trip of messages: each packet parses to its items, and over all packets each section is exactly the encodable items of that section of the message, in order |
| `MessageRoundTrip.HeadersAreTrue` | crates/mdns/src/dns_parser.rs:1883-1917 | In every packet of every message: id, flags and true section counts; TC on exactly all packets but the last of a query; no empty packet unless it is the only one |
| `MessageRoundTrip.SentIff` | crates/mdns/src/dns_parser.rs:1829-1880 | An item of a message is sent iff no name in it is too long and, alone in a packet, it takes no more than the limit: for a record the RFC 6762 section 17 ceiling of 8972 or 8952 bytes, for a question the caller's limit |
| `MessageRoundTrip.SizesAreLegal` | crates/mdns/src/dns_parser.rs:1829-1880 | No packet of any message has more than `max` bytes, but for a record that goes alone, in up to 8972 bytes over IPv4 and 8952 over IPv6 |
| `WireFields.FieldsReadBack` | crates/mdns/src/dns_parser.rs:2217-2247 | The round trip of a message field by field: each packet parses, its questions arrive with dotted name, type and class, and its records, in order, with dotted names, class, cache-flush bit and data; the TTL is the whole one, or what is left at the time of sending, with 0 read as 1 exactly in responses; the life begins on arrival, with its end at 100 and its first refresh at 80 percent |
| `WireFields.EchoCameThrough` | crates/mdns/src/dns_parser.rs:1568-1604 | The same of one record |
| `WireFields.ExampleOnWire` | crates/mdns/src/dns_parser.rs:1568-1604 | The very bytes of an example: header, question, a pointer, class 0x8001 for a unique record, TTL, length, SRV fields and a target of one label and a pointer |
| `TxtCodec.EncodeTxt` | crates/mdns/src/service_info.rs:914-935 | The loop writes each property as a length byte and its text cut at 255 bytes, and one zero byte for an empty list |
| `TxtCodec.DecodeTxt` | crates/mdns/src/service_info.rs:943-987 | The offset loop computes `Decoded`, stopping at an empty string and at the end of the data |
| `TxtCodec.DecodeTxtUnique` | crates/mdns/src/service_info.rs:989-1000 | Keeps exactly the first property of each folded key, in order |
| `TxtCodec.TxtRoundTrip` | crates/mdns/src/service_info.rs:914-987 | Decoding what was encoded gives the properties back iff each key is without `=` and each text has 1 to 255 bytes (the empty list included) |
| `TxtCodec.FirstsAreUnique` | crates/mdns/src/service_info.rs:989-1000 | RFC 6763 section 6.4: no folded key twice; a property is kept iff it is the first of its key |
| `TxtCodec.TxtExamples` | crates/mdns/src/service_info.rs:914-935 | The very bytes of two properties and of none |
| `RecordLife.DnsRecord.RefreshMaybe` | crates/mdns/src/dns_parser.rs:515-543 | Asks iff the record is alive and its refresh is due, and then moves on by one step of 80, 85, 90, 95, 100 percent |
| `RecordLife.DnsRecord.ResetTtl` | crates/mdns/src/dns_parser.rs:560-571 | Takes over TTL and creation, with fresh expiry and refresh times; none but the expiry for a TTL of at most 1 |
| `RecordLife.RefreshSchedule` | crates/mdns/src/dns_parser.rs:515-543 | Under any interleaving of both kinds of refresh, cache flushes, earlier expiries and give-ups, a record of TTL at least 1 asks at most four times, the query of a host resolver that makes it give up included, and never expires after `created + 1000 * ttl` |
| `RecordLife.RefreshedOnce` | crates/mdns/src/dns_cache.rs:548-575 | In every such run, an address that a host resolver has asked for is not asked for again before its TTL is reset |
| `RecordLife.AsksIff` | crates/mdns/src/dns_parser.rs:515-543 | From both sides: a record of TTL at least 1 that has asked n times, at whatever times it was looked at, asks at a time iff it is alive, n is below 4, and 80, 85, 90 or 95 percent of its life, by n, are over |
| `RecordLife.AsksAfterResetIff` | crates/mdns/src/dns_parser.rs:560-571 | The same from a TTL reset on |
| `RecordLife.AsksAtEachStep` | crates/mdns/src/dns_parser.rs:515-543 | So a record that is looked at at 80, 85, 90 and 95 percent of its life asks each time |
| `RecordLife.RefreshScheduleAfterReset` | crates/mdns/src/dns_parser.rs:560-571 | The same from a TTL reset on, and a record reset to a TTL of 1 never asks |
| `RecordLife.RefreshMovesOn` | crates/mdns/src/dns_parser.rs:704-710 | In every run the refresh time never goes back, and goes strictly forward when the record asks |
| `RecordLife.KnownAnswerTtl` | crates/mdns/src/dns_parser.rs:574-579 | A listed known answer has its remaining TTL computed without underflow, and it is above half the TTL iff the record is not exactly half-way through an even TTL |
| `RecordLife.KnownAnswerSuppression` | crates/mdns/src/dns_parser.rs:714-716 | One record against its listed copy, over the wire: a shared record cached for less than half its TTL is listed, and the copy suppresses the record that was announced iff its name and alias come back from the wire as they are and it is not exactly half-way through an even TTL |
| `KnownAnswers.SilentOnPacketIff` | crates/mdns/src/dns_parser.rs:719-726 | For every query with known answers and each of its packets: a record is suppressed iff a listed answer in this very packet suppresses it |
| `KnownAnswers.SilentIff` | crates/mdns/src/dns_parser.rs:2050-2063 | So if no other known answer suppresses it, a responder that handles a packet of the query keeps its record to itself iff the listed copy is in that packet, both its names come back as they are, and it is not the half-way point of an even TTL |
| `DnsName.DottedTwice` | crates/mdns/src/dns_parser.rs:2723-2819 | A name that comes back from the wire twice as itself comes back once as itself |
| `DnsName.EscapedIsNotCanonical` | crates/mdns/src/service_info.rs:80-98 | A full name whose instance has a dot or a backslash never comes back from the wire as it is |
| `Tiebreak.CompareIsKeyOrder` | crates/mdns/src/dns_parser.rs:628-649 | Record comparison is that of class, then type, then rdata bytes in which names are dotted text; not the order of the RFC, see `WireOrder.OrdersAgreeIff` |
| `Tiebreak.SameKeyIff` | crates/mdns/src/dns_parser.rs:628-649 | Tiebreaking takes two records for the same iff class, type and every field of the data are equal |
| `Tiebreak.YieldsIff` | crates/mdns/src/service_info.rs:1107-1134 | A list yields iff at the first difference it ends, or has the earlier record: lower class, then lower type, then the lower byte at the first difference of the data or the shorter data |
| `WireOrder.RawOrder` | crates/mdns/src/dns_parser.rs:984-1014 | The order of RFC 6762 section 8.2, on uncompressed wire rdata, label by label: a shorter label comes first |
| `WireOrder.OrdersAgreeIff` | crates/mdns/src/dns_parser.rs:984-1014 | For any two sendable records of one type the daemon and the RFC agree iff the names do not decide (always for A, AAAA and TXT) or are in the same order as text and label by label; for names that come back as they are, iff the first labels that differ have equal length or are in the order of their lengths |
| `WireOrder.HostsInOtherOrder` | crates/mdns/src/dns_parser.rs:984-1014 | They disagree on SRV records for `ab.local.` and `b.local.` with equal priority, weight and port |
| `Tiebreak.ListsAntisymmetric` | crates/mdns/src/service_info.rs:1113-1127 | The comparison of record lists is antisymmetric, and equal only for lists with equal keys |
| `Tiebreak.ListsTransitive` | crates/mdns/src/service_info.rs:1113-1127 | The comparison of record lists is transitive, hence a total order |
| `Tiebreak.OneYields` | crates/mdns/src/service_info.rs:1081-1134 | Two probers that see each other's full list never both yield, and exactly one does iff their lists differ |
| `Tiebreak.SomeoneWins` | crates/mdns/src/service_info.rs:1081-1134 | Among any finite, nonempty list of probers there is one that yields to none |
| `Tiebreak.WinnerIsGreatest` | crates/mdns/src/service_info.rs:1081-1134 | A prober that yields to none has the greatest list |
| `ProbeQueries.ReceivedTells` | crates/mdns/src/service_daemon.rs:3530-3537 | For any query, sent in however many packets and each handled at its time as a message of its own: a probe gives way iff there is a packet that holds a question of type ANY read as its name, handled after the start of the probe, such that the probe is earlier than the records read as of that name in this very packet |
| `ProbeQueries.PacketIsStretch` | crates/mdns/src/dns_parser.rs:1829-1880 | Each packet is a stretch of the message that misses nothing but the items with too long a label |
| `ProbeQueries.ArrivingIsPrefix` | crates/mdns/src/service_daemon.rs:5269-5305 | So what arrives together with the question for a probed name is the beginning of the records of that probe, without those with too long a label; nothing if the name does not come back from the wire as it is |
| `Duel.GivesWayIff` | crates/mdns/src/service_daemon.rs:3528-3537 | A started probe gives way to the probing query of a peer, over all its packets, iff the name comes back from the wire as it is and its records are earlier than those of the name in the packet that holds the question; look-up by question name and filter of the authorities included |
| `Duel.OneGivesWayIff` | crates/mdns/src/service_info.rs:1081-1134 | Two hosts, any number of probes in their queries, any number of packets: if no label of their records is too long and the names in rdata come back as they are, never both give way, and one does iff the name comes back as it is, the records differ, and the first difference is in what the later host shows together with its question |
| `Duel.WholeQueriesDecideIff` | crates/mdns/src/service_info.rs:1081-1134 | If both queries go out in one packet, one gives way iff the records differ and the name comes back as it is |
| `Duel.FirstApartBeatsNone` | crates/mdns/src/dns_parser.rs:1829-1880 | A query whose first record finds no room beside the question makes nobody give way |
| `Duel.BigTextsDecideNothing` | crates/mdns/src/dns_parser.rs:1829-1880 | So two hosts whose one TXT record is longer than a packet both go on, however they differ |
| `Duel.TwinGivesWayIff` | crates/mdns/src/service_info.rs:1081-1134 | Against a host with the same records, none with too long a label, a host gives way iff the name comes back as it is and, of what the other shows together with its question, the first rdata that does not comes back later |
| `Duel.TwinsGiveWayIff` | crates/mdns/src/service_info.rs:1081-1134 | If both queries go out in one packet and no label is too long, both give way iff the name comes back as it is and the first rdata that does not comes back later; otherwise neither does |
| `Duel.TwinsMissingOneGiveWay` | crates/mdns/src/service_info.rs:1081-1134 | Where a label is too long: two hosts with the same two SRV records, the first of which cannot be sent, both give way although all names come back as they are |
| `Duel.SameTargetIff` | crates/mdns/src/dns_parser.rs:984-1014 | With one SRV record behind TXT or address records that is iff its host is earlier than the dotted text it comes back as |
| `Duel.DoubleDotComesBackLater` | crates/mdns/src/service_daemon.rs:4744-4760 | The host name `a..local.`, and each with two dots behind a plain first label of at most 247 bytes, is accepted by registration and comes back with one dot, which is later; it can be sent iff that label has at most 63 bytes |
| `Duel.TwinsOnDoubleDot` | crates/mdns/src/service_info.rs:1081-1134 | So two hosts with the same service on such a host name, with a first label of at most 63 bytes, both give way whenever they meet, if their queries go out in one packet |
| `Duel.TwinsHappen` | crates/mdns/src/service_info.rs:1081-1134 | Such hosts exist: for every name of one plain label, every such host name and every size limit of at least 300 bytes, two hosts with a lone SRV record whose queries go out in one packet |
| `Duel.LongTwinsStay` | crates/mdns/src/dns_parser.rs:1688-1728 | With a first label of 64 to 247 bytes neither gives way, since the SRV record is never sent |
| `RateLimit.MulticastStamps.ApplyMulticastRateLimit` | crates/mdns/src/service_info.rs:1213-1235 | Prunes and updates the stamps of one address family only, and drops from the message exactly what the limit drops |
| `RateLimit.SameKeyIff` | crates/mdns/src/service_info.rs:1390-1400 | Two records are one for the limit iff their names differ at most in case and they have the same type and data, TXT data by its properties; interface, class and TTL do not matter |
| `RateLimit.SurvivorKeys` | crates/mdns/src/service_info.rs:1374-1387 | A key survives iff it is listed and was not stamped within the last 1000 ms |
| `RateLimit.FirstOccurrenceSurvives` | crates/mdns/src/service_info.rs:1374-1387 | An answer whose key was not stamped within the last 1000 ms survives where it is first listed |
| `RateLimit.StampedIffSent` | crates/mdns/src/service_info.rs:1213-1235 | The keys stamped by a call are exactly those that stay in a message that keeps an answer |
| `RateLimit.PruningIsHarmless` | crates/mdns/src/service_info.rs:1227-1229 | Over every run with a non-decreasing clock, each call decides as it would with a map that is never pruned |
| `RateLimit.OncePerSecond` | crates/mdns/src/service_info.rs:1213-1235 | Over every run with a non-decreasing clock, two calls that send the same record are at least 1000 ms apart |
| `CacheState.ApplyCacheFlush` | crates/mdns/src/dns_cache.rs:755-799 | The loop cuts the life of exactly the records of same class, type and (for addresses) interface that are more than a second old and more than a second from their end, with one timer each |
| `CacheState.FlushShortens` | crates/mdns/src/dns_cache.rs:755-799 | A flush never lengthens a life, and each shortened one ends at now + 1000 and has that timer |
| `CacheState.FlushedIff` | crates/mdns/src/dns_cache.rs:755-799 | For records of all types: a record ends a second from now iff it has the class and type of the one that came in, and its interface if it is an address, is more than a second old and has more than a second left; every other record is as before |
| `CacheState.RunKeepsState` | crates/mdns/src/dns_cache.rs:223-298 | In every run of adds, flushes, both evictions, removals of records, of interfaces and of addresses on disabled interfaces, earlier expiries and both kinds of refresh from an empty cache, no bucket holds two records that match, and each record is filed under its own name and type |
| `CacheState.FlushedAddressesGo` | crates/mdns/src/dns_cache.rs:755-799 | After a cache-flush address at t and any further operations, evicting at t + 1000 or later leaves for that host, class, type and interface only records created no more than 1000 ms before t |
| `CacheState.FlushedServicesGo` | crates/mdns/src/dns_cache.rs:755-799 | The same run theorem for SRV, TXT and PTR records and the eviction of services: after a cache-flush record at t and any further operations, an older record of its name, class and type is left only if it is an SRV or TXT record that no PTR record leads to |
| `CacheState.TakenInIff` | crates/mdns/src/dns_cache.rs:223-298 | A record is taken in iff it is for us or its kind is known under its name already, addresses in any case of their host names, CNAME never; otherwise nothing changes |
| `CacheState.FiledTogetherIff` | crates/mdns/src/dns_cache.rs:223-298 | Addresses are filed together iff their host names differ at most in case, others iff their names are equal |
| `CacheState.AddLosesNone` | crates/mdns/src/dns_cache.rs:223-298 | Adding loses no record of the bucket |
| `CacheState.RemovedIff` | crates/mdns/src/dns_cache.rs:301-322 | A record stays iff it is not the same as the removed one up to life and new name, or is of another name or kind |
| `CacheState.AddrLeftIff` | crates/mdns/src/dns_cache.rs:325-346 | An address stays iff it lives on; all other records stay |
| `CacheState.DisabledLeftIff` | crates/mdns/src/dns_cache.rs:616-644 | An address stays iff it is of another interface or of a version that is not disabled |
| `DnsRecords.MatchesIff` | crates/mdns/src/dns_parser.rs:793-800 | Records match iff they are the same up to their lives and new names |
| `DnsCache.DnsCache.AddOrUpdate` | crates/mdns/src/dns_cache.rs:223-298 | The method refines the add function: ignored, renewed in place or put in front; the timers of the flush are returned |
| `DnsCache.AddedIsFound` | crates/mdns/src/dns_cache.rs:223-298 | What is accepted is in the cache afterwards with the incoming life, new iff nothing in its bucket matched, and the bucket grows by one or not at all |
| `DnsCache.DnsCache.Remove` | crates/mdns/src/dns_cache.rs:301-322 | Removes exactly the matching records of the bucket, and reports whether there was one |
| `DnsCache.DnsCache.EvictExpiredAddr` | crates/mdns/src/dns_cache.rs:325-346 | Keeps exactly the addresses that have not expired, drops empty hosts, and reports each expired (name, address) |
| `DnsCache.DnsCache.EvictExpiredServices` | crates/mdns/src/dns_cache.rs:352-404 | Expired PTR records go, and expired SRV and TXT records of the instances that a PTR record names; reported are exactly the instances of which a PTR record or the last SRV record went, each under a type that had a PTR record for it |
| `CacheState.ExpiredLeftIff` | crates/mdns/src/dns_cache.rs:352-404 | What the eviction of services misses: an expired record is left iff it is an address, or an SRV or TXT record of an instance that no PTR record in the cache names |
| `DnsCache.DnsCache.RefreshDueHostnameResolutions` | crates/mdns/src/dns_cache.rs:548-575 | Returns exactly the addresses of the host that are alive and due, in order, and makes each of them give up further refreshes |
| `DnsCache.DnsCache.RemoveAddrsOnDisabledIntf` | crates/mdns/src/dns_cache.rs:616-644 | Removes exactly the addresses of the disabled versions on that interface |
| `DnsCache.DnsCache.GetKnownAnswers` | crates/mdns/src/dns_cache.rs:580-611 | Lists exactly the shared records of the bucket whose half-life is not over |
| `DnsCache.ListedIff` | crates/mdns/src/dns_cache.rs:580-611 | A record of the bucket is listed iff it is not unique and at most half of its TTL is over |
| `DnsCache.DnsCache.RemoveRecordsOnIntf` | crates/mdns/src/dns_cache.rs:649-750 | The method computes the state without the interface and the two reports |
| `DnsCache.RemovedIffLastPtrWent` | crates/mdns/src/dns_cache.rs:649-700 | (type, instance) is reported as removed iff there was a PTR record for it under that type and none is left |
| `DnsCache.OnlyInterfaceRecordsGo` | crates/mdns/src/dns_cache.rs:649-750 | A record stays iff it came by another interface and is not an SRV or TXT record of a removed instance |
| `DnsCache.ModifiedIff` | crates/mdns/src/dns_cache.rs:700-735 | An instance is reported as modified iff it stays and lost an SRV or TXT record, or the host of an SRV record that is left lost an address |
| `DnsCache.DnsCache.ServiceVerifyQueries` | crates/mdns/src/dns_cache.rs:181-216 | The queries for SRV and the addresses of each target, and, with a deadline, all these records cut to it |
| `DnsCache.VerificationDeadline` | crates/mdns/src/dns_cache.rs:181-216 | RFC 6762 section 10.4: the records under verification and the addresses they point to expire by the deadline, no other life gets longer, and no record is lost |
| `DnsCache.VerifyQueriesIff` | crates/mdns/src/dns_cache.rs:181-216 | Asked for are A and AAAA of each target, and nothing else |
| `Probes.FindPlace` | crates/mdns/src/service_info.rs:1057-1078 | The binary search finds a place that keeps the order by class and type |
| `Probes.SortOrderIff` | crates/mdns/src/service_info.rs:1057-1078 | The order of records in a probe is that of class and type as one number |
| `Probes.Probe.InsertRecord` | crates/mdns/src/service_info.rs:1057-1078 | Puts the record in so that the list stays sorted and nothing else moves |
| `Probes.Probe.Tiebreaking` | crates/mdns/src/service_info.rs:1081-1134 | The element loop and the length comparison decide as the list order: postponed by a second iff the probe has started and its list is earlier than the peer's |
| `Probes.TiebreakOutcome` | crates/mdns/src/service_info.rs:1081-1134 | Start and next query are put a second from now iff the probe has started before now and its list yields; otherwise nothing changes |
| `Probes.QueriesBound` | crates/mdns/src/service_info.rs:1136-1146 | For every probe and every sequence of polls: the first query is not before it is due, the next ones are 250 ms apart, and all are before 750 ms from the start |
| `Probes.AtMostThreeIff` | crates/mdns/src/service_daemon.rs:5269-5305 | A probe sends at most three queries however it is polled, and none before its start, iff its next query is not due before its start |
| `RegistryRuns.SentOnSchedule` | crates/mdns/src/service_daemon.rs:5269-5365 | In every run of the registry, with any operations in between, the queries sent for a name from one start to the next are those of the schedule |
| `RegistryRuns.ThreeQueriesAStart` | crates/mdns/src/service_daemon.rs:5269-5305 | In every run with polls in order, from one start to the next a probe whose next query is not due before its start sends at most three queries, none before the start, 250 ms apart, all within 750 ms; which probes are of this kind say the next four |
| `RegistryRuns.NewStartsTogether` | crates/mdns/src/service_info.rs:1039-1054 | A probe that a registration makes new, and one that has lost a tiebreak, has its next query due at its start |
| `RegistryRuns.AnswerStartsTogether` | crates/mdns/src/service_daemon.rs:3355-3384 | So has a probe that one conflicting answer makes new, at the time drawn for that answer |
| `RegistryRuns.ResponseStartsTogetherIff` | crates/mdns/src/service_daemon.rs:3292-3395 | Over a whole response, in which each answer draws its own time: the next query of a probe that is new afterwards is due at the time of the answer that made it new, its start is that of the last answer that started it, and it keeps to three queries, none before its start, iff the latter is not later |
| `RegistryRuns.RestartIsEarlyIff` | crates/mdns/src/service_info.rs:1342-1346 | A probe that a new host name starts again keeps to three queries iff its next query was not due before the new start, because that is not moved |
| `Probes.ThreeQueriesIffOnTime` | crates/mdns/src/service_daemon.rs:5269-5305 | It sends exactly three iff the daemon is late for them by less than 250 ms in all |
| `Renaming.NewNamesDiffer` | crates/mdns/src/service_daemon.rs:5210-5263 | For every name, the new name after a conflict differs from it |
| `Renaming.NamesCountUp` | crates/mdns/src/service_daemon.rs:5210-5240 | From the first conflict on, each conflict counts the number in parentheses up by one, modulo 2^32 |
| `Renaming.HostsCountUp` | crates/mdns/src/service_daemon.rs:5246-5265 | The same for the number behind the hyphen of a host name |
| `Renaming.NamesNeverRepeat` | crates/mdns/src/service_daemon.rs:5210-5265 | Conflict after conflict, two names are equal iff their distance is a multiple of 2^32 |
| `Renaming.RenameExamples` | crates/mdns/src/service_daemon.rs:5210-5265 | `foo` becomes `foo (2)` and `foo (3)`, as a host `foo-2` and `foo-3` |
| `LongNames.NameAfterTooLongIff` | crates/mdns/src/service_daemon.rs:5210-5240 | For every service name of plain labels and every number of conflicts: the name cannot be sent any more iff what stands in front of the number, the space and parentheses and the digits of the number together take more than 63 bytes |
| `LongNames.HostAfterTooLongIff` | crates/mdns/src/service_daemon.rs:5246-5265 | The same for a host name, its hyphen and number |
| `LongNames.FirstConflictTooLongIff` | crates/mdns/src/service_daemon.rs:5210-5265 | So the first conflict makes a first label without a space too long iff it has 60 bytes or more, and a host label without a hyphen iff it has 62 or more |
| `LongNames.UnsentBecomesActive` | crates/mdns/src/service_daemon.rs:5311-5365 | A probe for a name that is too long can send neither its query nor its records, in whatever packet, and still makes them active when its time is over |
| `EscapedNames.RenameKeepsOneLabelIff` | crates/mdns/src/service_daemon.rs:5210-5240 | After a conflict, the instance of a service is one label in front of the type still iff its name has no dot in front of its last byte; otherwise the rename cuts it in two at its first dot |
| `EscapedNames.ConflictIsSeenIff` | crates/mdns/src/service_daemon.rs:3292-3296 | For every registry, a conflicting answer for the name of a probe is settled iff the name comes back from the wire as it is; otherwise it is taken to be for another name: every record of the probe stays, but for SRV records that point to that name, and nothing at all changes if there is no probe for it |
| `EscapedNames.TwiceEscapedIsOurs` | crates/mdns/src/dns_parser.rs:1688-1728 | The name of a peer whose instance is called as ours is escaped comes back from the wire as our name |
| `EscapedNames.OtherNameRenamesUs` | crates/mdns/src/service_daemon.rs:3292-3395 | An answer of that peer hits our probe: the conflict is settled, a probe for the changed name exists, and that name is one label in front of the type iff our instance has no dot in front of its last byte |
| `EscapedNames.OtherNameHappens` | crates/mdns/src/service_daemon.rs:3292-3395 | For every instance and every type that comes back as it is there are a registry and an answer of such a peer of which all this holds |
| `EscapedNames.OtherNameSendableIff` | crates/mdns/src/dns_parser.rs:1688-1728 | The peer can send its name iff our escaped instance has at most 63 bytes and the type can be sent |
| `StaleNames.StaleIff` | crates/mdns/src/service_daemon.rs:3292-3395 | After an answer that leads to a conflict, a record of the probe is under its old name iff the answer does not contradict it; SRV records aside that point to the old name or to a name that it is changed to |
| `StaleNames.StaleStays` | crates/mdns/src/service_daemon.rs:5311-5365 | In every run, a record, unless SRV, that is probed for under a name stays there while no answer for the name contradicts it, and is active there for good once the probe is over, whatever is renamed meanwhile |
| `StaleNames.StaleIsLeftBehind` | crates/mdns/src/service_daemon.rs:5044-5178 | If an answer contradicts one record of a service and not another, the service asks for its SRV and TXT records under the new name, while the other record stays under the old one |
| `RegistryState.AskedKeeps` | crates/mdns/src/service_info.rs:1245-1298 | Asking for a record keeps every record under its name and each probe sorted, and adds to the census of all records the one that was unknown, or nothing |
| `RegistryState.HostUpdateKeeps` | crates/mdns/src/service_info.rs:1303-1364 | A rewrite of SRV targets loses and doubles nothing, and keeps every record under its name and each probe sorted |
| `RegistryState.CoreIff` | crates/mdns/src/service_info.rs:1303-1364 | What the census counts: two records are one to it iff they agree in all but new names and the hosts of SRV records |
| `RegistryState.NoneLeftBehind` | crates/mdns/src/service_info.rs:1303-1364 | Afterwards no record of the registry points to the old host |
| `RegistryState.AllFollow` | crates/mdns/src/service_info.rs:1303-1364 | Each SRV record that pointed there is in the restarted probe for its name, with the new host and all else as before |
| `RegistrySteps.AnsweredKeeps` | crates/mdns/src/service_daemon.rs:3280-3395 | Giving way to a conflicting answer renames records but loses and doubles none, and keeps every record under its current name and each probe sorted |
| `RegistrySteps.ConflictIsSettled` | crates/mdns/src/service_daemon.rs:3280-3395 | RFC 6762 section 9: afterwards no record under the name contradicts the answer, but for SRV records that pointed to this very name and have moved to the new one |
| `Conflicts.RenamedIff` | crates/mdns/src/service_daemon.rs:3292-3395 | Which answers are conflicts, on class and data fields: a record of the probed name stays there iff the answer has another class or type or the same data, or is an address that was seen on another link or is one of ours; otherwise it is in the probe for the changed name, a host name for addresses, with its original name and its data, and all who waited wait there, too |
| `Conflicts.NoClashChangesNothing` | crates/mdns/src/service_daemon.rs:3292-3335 | An answer that clashes with no record of the probe changes nothing |
| `RegistrySteps.PolledKeeps` | crates/mdns/src/service_daemon.rs:5269-5365 | One round of queries and finished probes loses and doubles nothing |
| `RegistrySteps.FinishKeeps` | crates/mdns/src/service_daemon.rs:5311-5365 | A finished probe hands its records to the active ones under the same name, and nothing is lost |
| `HostRewrite.TakeAllPointers` | crates/mdns/src/service_info.rs:1312-1342 | The retain loops over all lists, in any order: exactly the SRV records that point to the host are taken out, each with its new target |
| `HostRewrite.PlacedIsUpdated` | crates/mdns/src/service_info.rs:1303-1364 | Taking out and inserting again amounts, name by name, to the specification of a new host name |
| `DnsRegistry.DnsRegistry.IsProbingDone` | crates/mdns/src/service_info.rs:1245-1298 | True iff a matching record is active, and then nothing changes; otherwise the record is in the probe for its name, the service waits for it, and the time of its next query is a new timer |
| `DnsRegistry.DnsRegistry.UpdateHostname` | crates/mdns/src/service_info.rs:1303-1364 | Name by name: active lists and probes keep what does not point to the host; what does is in the probe for its name with the new target, restarted or new; true iff a probe is new |
| `DnsRegistry.DnsRegistry.HandleAnswer` | crates/mdns/src/service_daemon.rs:3292-3395 | One answer: nothing if it is harmless, else every contradicted record is renamed, its SRV followers move, and each new probe has a timer for its first query |
| `DnsRegistry.DnsRegistry.ConflictHandler` | crates/mdns/src/service_daemon.rs:3280-3395 | All answers in order, with the invariant of the registry and the timers of new probes |
| `DnsRegistry.DnsRegistry.ReceiveProbe` | crates/mdns/src/service_daemon.rs:3528-3537 | A peer's probe leads to a tiebreak of the probe for that name and of no other |
| `DnsRegistry.DnsRegistry.ReceiveQuery` | crates/mdns/src/service_daemon.rs:3480-3537 | A query ties the probe for the name of each of its questions of type ANY, if it has authorities |
| `DnsRegistry.DnsRegistry.CheckProbing` | crates/mdns/src/service_daemon.rs:5269-5305 | Exactly the probes that are due and not over are asked for, each once, with all their records as authorities, their next query and a timer 250 ms on; exactly those that are due and over are returned |
| `DnsRegistry.DnsRegistry.HandleExpiredProbes` | crates/mdns/src/service_daemon.rs:5311-5365 | Probes in the list become active under their names, the services that wait for nonempty ones are returned, and each renamed record gives one event |
| `DnsRegistry.DnsRegistry.ProbingHandler` | crates/mdns/src/service_daemon.rs:2339-2369 | Both together are one round, for every registry and time |
| `RegistryRuns.NothingIsLost` | crates/mdns/src/service_daemon.rs:5311-5365 | In every run of the registry from empty, all records, with their multiplicity and up to name and SRV target, are exactly those registered as new, each under its current name and each probe sorted |
| `RegistryRuns.ActiveWasProbed` | crates/mdns/src/service_info.rs:1141-1146 | In every run, each active record was put there by a poll at which the probe for its name held it and had had its 750 ms |
| `Waiters.AskersAreWoken` | crates/mdns/src/service_daemon.rs:5311-5365 | In every run, whoever waits for a probe waits on, through conflicts and tiebreaks, until a poll at which the probe has had its 750 ms, and is woken there if the probe has records |
| `Waiters.AskerWaits` | crates/mdns/src/service_info.rs:1245-1298 | Who asks for a record that is not active waits for the probe of its name |
| `Waiters.EventsIff` | crates/mdns/src/service_daemon.rs:5325-5345 | There is an event for a record of a finished probe iff it has a new name, with its original name, new name and type |
| `Announce.PrepareAnnounce` | crates/mdns/src/service_daemon.rs:5044-5178 | An announcement is returned iff there is an address and, if probing is required, every SRV, TXT and address record is active; the registry is then unchanged; otherwise each unique record has been asked for. What is returned is right in every field, see the next row |
| `Announce.AnnouncementFields` | crates/mdns/src/service_daemon.rs:5063-5171 | Field by field: PTR records of type and subtype to the current name, shared; SRV with priority, weight, port and current host, TXT with its text and a record for each address, under their original and current names with the cache-flush bit; all of class IN, host TTL on SRV and addresses, other TTL on PTR and TXT |
| `Announce.AnnouncedNamesAgree` | crates/mdns/src/service_daemon.rs:5063-5171 | However often service and host were renamed, PTR targets, SRV and TXT owner names agree, and the SRV target is the owner name of all address records |
| `Announce.NoPrematureAnnouncement` | crates/mdns/src/service_daemon.rs:5044-5178 | In every run, each unique record of an announcement that needs probing matches a record whose probe had had its 750 ms |
| `Announce.LateRecordsJoinIff` | crates/mdns/src/service_info.rs:1245-1298 | What the 750 ms are not: a record that is asked for becomes active in the same millisecond iff there is a probe for its name that is due and has had its time |
| `RunLoop.AddTimed` | crates/mdns/src/service_daemon.rs:3060-3127 | A record taken into the cache, and each that it flushes, has a timer for its expiry afterwards, so that every cached expiry after the last pop is in the heap |
| `RunLoop.VerifiedTimed` | crates/mdns/src/service_daemon.rs:4349-4382 | Cutting lives for a verification needs one more timer, at the deadline |
| `HostQueries.EndlessForever` | crates/mdns/src/service_daemon.rs:4054-4068 | In every run of the loop, a query for a host name that outlasts the timeout on file for that very name is followed by others for as long as the listener lives, whatever is started or stopped meanwhile, unless a new timeout is filed under the name |
| `HostQueries.TimeoutEndsQueriesIff` | crates/mdns/src/service_daemon.rs:1566-1606 | In every run, for a name in lower case with a deadline on file and no command for it: after a pop at or behind the deadline no query waits, nor ever will, iff each query that waited at any time before, the first one included, was executed at a pop before the deadline; the listener living throughout |
| `HostQueries.TimeoutEndsInTimeIff` | crates/mdns/src/service_daemon.rs:4035-4069 | With one query waiting, as after the start of a resolver, the same by the times alone: a recursion over the times of pops and executions in front of the deadline, with the doubling interval |
| `HostQueries.NoneLeftIff` | crates/mdns/src/service_daemon.rs:1597-1606 | In every run, no query for a name is left over iff each that waited at any moment was due at a later pop |
| `HostQueries.CapitalsNeverEnd` | crates/mdns/src/service_daemon.rs:2536-2550 | For a name with capitals the queries never end while the listener lives, whatever timeout is given and whatever is stopped |
| `HostQueries.ShortTimeoutNeverEnds` | crates/mdns/src/service_daemon.rs:4035-4048 | Nor do they for a name in lower case whose timeout is up before its first query is due, 10 to 49 ms after the start: that query finds no resolver, and goes on without a deadline |
| `HostQueries.FirstResolverNeverEnds` | crates/mdns/src/service_daemon.rs:4016-4069 | Both families are met by the first resolver of a daemon that has just begun, for every name with capitals and every timeout of at most 10 ms |
| `HostQueries.StopNeverEnds` | crates/mdns/src/service_daemon.rs:4281-4303 | To stop a resolver ends none of its queries: while the listener lives they go on, and without a deadline |
| `HostQueries.RunKeepsLower` | crates/mdns/src/service_daemon.rs:2536-2550 | In every run, resolvers are filed under names in lower case |
| `Daemon.Daemon.ExecCommand` | crates/mdns/src/service_daemon.rs:3819-3900 | A command changes the host resolvers and their queries, the first time and when it repeats, exactly as the runs of `HostQueries` say; when it repeats, it only adds retransmissions that are not due |
| `Daemon.Daemon.PollTimeout` | crates/mdns/src/service_daemon.rs:1546-1551 | At the head of an iteration the timeout is set if anything has a deadline, and never reaches past it (or past one millisecond if it has passed) |
| `Daemon.Daemon.PopTimersTill` | crates/mdns/src/service_daemon.rs:1824-1831 | Drops exactly the timers up to now; all later deadlines keep theirs |
| `Daemon.Daemon.ExecBrowse` | crates/mdns/src/service_daemon.rs:3953-4014 | Exactly if somebody listens and it is not for the cache only, one retransmission more, with its timer: 10 to 49 ms from now the first time, then after the interval, which is doubled up to an hour |
| `RunLoop.DelaysDouble` | crates/mdns/src/service_daemon.rs:4005-4013 | The interval doubles with each query, up to 2048 seconds, and is an hour from the twelfth on |
| `Daemon.Daemon.ExecResolveHostname` | crates/mdns/src/service_daemon.rs:4016-4069 | The same for a host name; the first call files the resolver with its timeout, and a later one goes on iff its time is before the timeout of the resolver that is found |
| `Daemon.Daemon.ExecResolve` | crates/mdns/src/service_daemon.rs:4071-4093 | One retransmission more iff something of the instance is missing in the cache and it was not the fifth try, after exactly half a second, one, two or four |
| `RunLoop.TriesDouble` | crates/mdns/src/service_daemon.rs:4071-4093 | The five tries are half a second, one, two and four seconds apart |
| `DnsCache.DnsCache.QueryUnresolved` | crates/mdns/src/service_daemon.rs:2750-2770 | True iff the name has the form of an instance and its SRV record, or all addresses of the target of one, are missing |
| `DnsCache.UnresolvedIff` | crates/mdns/src/service_daemon.rs:2750-2770 | On names: four dots or more, and no SRV record or one for whose target no address is known, however the target is written |
| `Daemon.Daemon.ExecVerify` | crates/mdns/src/service_daemon.rs:4349-4382 | Cuts the lives once, and asks again after a second iff there is an SRV record, with timers for both |
| `Daemon.Daemon.ExecStopBrowse` | crates/mdns/src/service_daemon.rs:4188-4274 | Removes exactly the retransmissions of the browse and of the resolves of its live instances; all other deadlines keep their timers |
| `RunLoop.LiveIff` | crates/mdns/src/service_daemon.rs:4235-4252 | Instances whose resolves are dropped are those that a PTR record of the type leads to with more than a second left |
| `Daemon.Daemon.ExecStopResolveHostname` | crates/mdns/src/service_daemon.rs:4281-4303 | Removes the resolver, and of the retransmissions only those that resolve an instance of this name |
| `Daemon.Daemon.HandleResponse` | crates/mdns/src/service_daemon.rs:2995-3127 | Expired records are removed, the others added in order, each with its timers |
| `Daemon.Daemon.IngestRecords` | crates/mdns/src/service_daemon.rs:3173-3281 | A query with answers, if they are for us: what has not expired is added in order, each with its timers, and nothing is removed |
| `Daemon.Daemon.DelayResponse` | crates/mdns/src/service_daemon.rs:3629-3646 | A shared answer waits 10 to 50 ms, with a timer |
| `Daemon.Daemon.RemoveExpiredResolvers` | crates/mdns/src/service_daemon.rs:1566-1586 | Exactly the resolvers whose timeout has come go; all that are left have timers |
| `Daemon.Daemon.RerunDue` | crates/mdns/src/service_daemon.rs:1597-1606 | The loop ends; every due retransmission is executed once and in order, those not due stay in order, and what the executions add is not due |
| `Daemon.Daemon.SendDelayed` | crates/mdns/src/service_daemon.rs:1608-1617 | Exactly the due responses are sent, in order; the others stay in order |
| `Daemon.Daemon.Iterate` | crates/mdns/src/service_daemon.rs:1542-1671 | No lost wake-up for queued retransmissions, delayed responses, host resolvers and cached records, over every iteration: from a state in which every queued deadline and every cached expiry after the last pop is in the heap, the poll does not sleep past any of them, and the state at the next head is such again, with nothing overdue in a queue; and the iteration is one turn of the runs of `HostQueries` |
| `ProbeTimers.StepKeepsCovered` | crates/mdns/src/service_info.rs:1125-1129 | Probes: every operation keeps a timer for the next query of each probe, but a lost tiebreak, which sets none; it leaves the probe without one iff there happens to be none for a second later |
| `ProbeTimers.StepKeepsAwaited` | crates/mdns/src/service_info.rs:1267-1275 | The same for the timers in the heap: besides, a new probe is left without one iff its timer is not taken over and there happens to be none for that time |
| `ProbeTimers.DrainAwaits` | crates/mdns/src/service_daemon.rs:2310-2312 | Taking over the timers of new probes gives every probe its timer in the heap |
| `ProbeTimers.RunKeepsCovered` | crates/mdns/src/service_daemon.rs:1824-1831 | In every run of operations, pops and take-overs from an empty registry in which no lost tiebreak moves a probe to a time without a timer, each probe has a timer for its next query |
| `ProbeTimers.AwaitedSinceDrain` | crates/mdns/src/service_daemon.rs:2310-2312 | In every such run, from a take-over until the next registration of a new name, that timer is in the heap, so that the daemon wakes up for the query |

## Left out

- HINFO and NSEC records: their writers do not produce what their readers expect.
- `PacketReader.DnsIncoming.ReadRecord`: skips HINFO and NSEC records by their length, where the source reads them or refuses the message.
- UTF-8 checks, and lower-casing beyond ASCII; names are byte sequences.
- `PacketReader.DnsIncoming.ReadName`: promises nothing for input on which the loop of the source would go on forever. Encoder output is never such input.
- `PacketReader.DnsIncoming.ReadQuestions`: the same, for the names in the questions.
- `PacketReader.DnsIncoming.ReadRecords`: the same, for the names in the records.
- `PacketReader.DnsIncoming.ReadAll`: the same, for all names of the message.
- `PacketBuilder.ToPackets`: assumes that the names of an item take at most 4096 bytes in all, far above the 255 of RFC 1035, so that offsets stay lossless; `OffsetWrap` shows what happens beyond. The four section loops of the source are one loop over the items in order here.
- `PacketWriter.OutPacket.WriteQuestion`: an error leaves the table as it was only under the condition of `OffsetWrap.RollbackRestoresIff`, because the code does no better.
- `PacketWriter.OutPacket.WriteRecord`: the same.
- `Duel.GivesWayIff`: assumes that no other name in the query is read as this one, and that the names of an item take at most 4096 bytes; without the former, `ProbeQueries.ReceivedTells` is the exact condition. Packets are neither lost nor reordered, and a probe has started before the first of them arrives.
- `Duel.OneGivesWayIff`: assumes that no label of the records is too long and that the names in the rdata come back as they are; otherwise `Duel.GivesWayIff` is the exact condition, and for hosts with equal records `Duel.TwinGivesWayIff`. `Duel.TwinsMissingOneGiveWay` shows what may happen with a label that is too long.
- `KnownAnswers.SilentIff`: assumes that no other known answer suppresses the record; otherwise `KnownAnswers.SilentOnPacketIff` is the exact condition.
- `DnsRegistry.DnsRegistry.IsProbingDone`: probes are values in the map, loaded into a `Probe` object for an insertion or a tiebreak; aliasing is not modelled.
- `DnsRegistry.DnsRegistry.ConflictHandler`: the place of a record among others of its class and type is left open, as the binary search of the source leaves it open.
- `RateLimit.MulticastStamps.ApplyMulticastRateLimit`: the key of a record is its name in lower case, type and shown data as a structure; that the formatted strings of the source could collide is not modelled.
- `DnsCache.DnsCache.AddOrUpdate`: without the table from instances to subtypes, and without NSEC.
- `Daemon.Daemon.Iterate`: the next queries of probes are not among the deadlines, since they may have no timer; `ProbeTimers` says when. The walks over the records due for refresh are not part of the iteration, and the timers of those refreshes are parameters, as are the instances that an event completes or leaves incomplete. The contents of queries that are sent are not recorded.
- `Daemon.Daemon.ExecBrowse`: whether the listener is still there is an arbitrary choice, which the method returns.
- `Daemon.Daemon.ExecResolveHostname`: the same.
- Sockets, polling, interfaces, channels, threads, monitors, metrics and logging; sending is appending to a list or returning a message.
- Services, their addresses and the choice of addresses for an interface; `Announce.PrepareAnnounce` gets them as parameters.
- Everything outside crates/mdns: command line, relay, control plane, capture and scripts.
