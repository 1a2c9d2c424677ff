# Verified models of Vermont

Vermont is a modular network monitor: it captures packets, aggregates them into flows,
anonymises them and exports them over IPFIX. This project models the parts of it whose
behaviour is hardest to see from the code, and proves what they promise. Nothing here was
executed; the model and its proofs are Dafny 4.11.

`dafny verify dfyconfig.toml` checks the whole project.

## What is modelled

**The IPFIX exporter.** A message body is written as an array of entries that point to set
headers and to fields (`DataBuffer.dfy`). `DataSets.dfy` gives the meaning of this buffer: the
sets that have been ended, and the set being built. Each call of the user is proved to act on
the array exactly as it acts on the meaning, and a call that fails changes nothing. `Wire.dfy`
is a collector's parser for sections 3.3.1 and 3.3.2 of RFC 5101, and a collector reads back the
ended sets if and only if each of them is shorter than 2^16 bytes. `MessageSize.dfy` has the
remaining space. `TemplateWire.dfy` is a decoder for template sets (sections 3.2, 3.3.2 and
3.4.1 of RFC 5101), and `TemplateBuilder.dfy` builds them in place in the byte array that each
template owns. `TemplateCycle.dfy` and `TemplateTable.dfy` follow templates through their life:
the send buffers point to these arrays, and the project says exactly when definitions and
withdrawals of each id take turns in what SCTP collectors read (section 8 of RFC 5101).
`Messages.dfy` follows the bytes and headers of all messages over whole runs (section 3.1 of
RFC 5101), and says exactly when sequence numbers count the data records sent.

**The collectors** (`Resources.dfy`, `PathMtu.dfy`, `Dtls.dfy`). OpenSSL, the sockets and the
clock answer at will. Over every run each open socket and each SSL object of a DTLS collector is
held by exactly one connection and none of them is closed or freed twice. Data is only written to
a connection whose handshake is over and over which the templates have been offered before: their
send was tried, whatever became of it, or there were none to send. The limit for messages suits
the path of every collector over UDP whose MTU is at least the size of the headers.

**Crypto-PAn and subnet pseudonyms** (`Bits.dfy`, `CryptoPan.dfy`, `Subnets.dfy`,
`SubnetSearch.dfy`, `SubnetTable.dfy`). The block cipher is any function. The search for a
subnet does not always find the longest configured prefix; the project has a configuration for
which it does not, and the exact condition on configuration and address under which it does, and
under which the pseudonym is the one of the longest subnet.

**SHA-1 and HMAC** (`Fips180.dfy`, `Sha1Transform.dfy`, `Sha1.dfy`, `Hmac.dfy`). The unrolled
transform with its ring of sixteen words refines section 6.1.2 of FIPS 180-4. However a message
is cut into updates, the digest is the hash of the message padded once as in section 5.1.1 of
FIPS 180-4, and `sha1_hmac` is the construction of section 2 of RFC 2104.

**The pipeline** (`ConcurrentQueue.dfy`, `SourceLink.dfy`, `Sequences.dfy`, `Topology.dfy`,
`Graphs.dfy`). The bounded queue and the link between two modules are step protocols with any
number of threads. The graph is the adjacency matrix with its removal of nodes and its
depth-first topological sort, which decides in which order modules start and stop. A waiting
push and a waiting pop can each lose a token in a shutdown, and a restarted queue is closed for
good exactly when as many tokens are lost as it has places; the project has a run for either
side. The vectors of the sort are never cleared: the project says exactly when a graph changed
since can be sorted again at all, and when the order is then still right for its edges.

**Bloom filters** (`MinFilter.dfy`, `BitFilter.dfy`). The count and age filters never report
less than the truth, and the packed bitmap has no false negatives, in both row modes.

Rules for the caller are not assumed where the source does not check them; the project says what
happens when they are broken. A template is to be announced with fields, ended only while it is
being defined, and removed once. For each call `Allowed` is the exact condition under which
collectors and slots stay in agreement; `CommitKeepsTurns` and `GiveUpKeepsTurns` say exactly when
breaking it makes the collectors read a second definition, or a withdrawal of nothing, and
`EndAgain` and `RemoveAgain` reach that by calls. A data set is to be shorter than 2^16 bytes and
ended before data is sent: `ShortIsFaithful`, `LengthIsExact` and `LengthOverUdp` say exactly what
a collector gets otherwise, and `Miscounted` is a run with a wrong sequence number.

Where code and comments differ the model follows the code. The comment at the head of
`ipfix_get_remaining_space` promises the space left below the maximum; `RemainingSpace` has the
exact condition under which the code reports it, and `SpaceWronglyReported` a message for which
it does not. The limit for messages is described as the maximum size that all collectors allow;
it is never raised when the collector that caused it is removed, and an MTU below the size of the
headers does not lower it (`AddTiny`). A template announced with zero
fields goes out as the same eight bytes as a withdrawal (`WithdrawalIsDistinct`), although the
interface does not refuse it.

## Model

| member | source | states |
|---|---|---|
| Wire.RoundTrip | src/common/ipfixlolib/ipfixlolib.c:2304-2326 | Sets written with 16-bit length fields are read back by a parser for section 3.3.2 of RFC 5101 if and only if each of them, header included, is shorter than 2^16 bytes. |
| Wire.ParsedFits | src/common/ipfixlolib/ipfixlolib.c:2312-2313 | Whatever bytes a collector parses, no set it reads is longer than its length field can say. |
| Wire.ReadBack16 | src/common/ipfixlolib/encoding.c:129-141 | A 16-bit number written in network byte order is read back at its place between any other bytes. |
| Wire.ReadBack32 | src/common/ipfixlolib/encoding.c:153-162 | The same for 32-bit numbers. |
| DataSets.StepWellFormed | src/common/ipfixlolib/ipfixlolib.c:2142-2425 | No call overruns the 32768 entries or the 128 set headers, and the marker stays within the open set. |
| DataSets.RunWellFormed | src/common/ipfixlolib/ipfixlolib.c:2142-2425 | The same after any run of calls. |
| DataSets.MarkPutDelete | src/common/ipfixlolib/ipfixlolib.c:2385-2425 | Setting the marker, any puts and deleting up to the marker gives back the set as it was. |
| DataSets.StartCancel | src/common/ipfixlolib/ipfixlolib.c:2345-2375 | Starting a set, any puts, marks and deletions, and cancelling it leaves the ended sets and everything else as before the start. |
| DataSets.BuildingKeeps | src/common/ipfixlolib/ipfixlolib.c:2265-2280 | Puts, marks and deletions never touch the ended sets, and neither open nor close a set. |
| DataSets.GatheredBody | src/common/ipfixlolib/ipfixlolib.c:2170-2176 | The entries of the ended sets, with the header store they point to, yield exactly the encoded sets in order. |
| DataSets.BodyRoundTrip | src/common/ipfixlolib/ipfixlolib.c:2293-2329 | A collector reads the ended sets back, ids and concatenated fields in order, if and only if each fits in 16 bits. |
| DataSets.CommittedIsExact | src/common/ipfixlolib/ipfixlolib.c:2312-2316 | Where the sets fit, committed_data_length is the number of bytes of the message body. |
| DataBuffer.StartHolds | src/common/ipfixlolib/ipfixlolib.c:2167-2181 | Starting a set keeps entries, positions, headers and lengths in step with the sets they stand for. |
| DataBuffer.PutHolds | src/common/ipfixlolib/ipfixlolib.c:2275-2278 | Putting a field keeps them in step, with data_length modulo 2^32. |
| DataBuffer.EndHolds | src/common/ipfixlolib/ipfixlolib.c:2311-2326 | Ending a set keeps them in step: the length field is the content plus the header modulo 2^16. |
| DataBuffer.CancelHolds | src/common/ipfixlolib/ipfixlolib.c:2361-2372 | Cancelling a set keeps them in step, whatever is left in the cleared entries. |
| DataBuffer.DeleteHolds | src/common/ipfixlolib/ipfixlolib.c:2412-2420 | Deleting up to the marker keeps them in step. |
| DataBuffer.SetsDecide | src/common/ipfixlolib/ipfixlolib.c:2385-2425 | Buffers with the same sets and fields agree on current, committed, entries, lengths and counts, so a rollback of the fields is a rollback of the buffer. |
| DataBuffer.Guards | src/common/ipfixlolib/ipfixlolib.c:2148-2165 | What the checks at the head of each call test on positions and counters is exactly whether the call is acceptable for the sets in the buffer. |
| DataBuffer.SendBuffer.constructor | src/common/ipfixlolib/ipfixlolib.c:1169-1213 | A new buffer holds no sets. |
| DataBuffer.SendBuffer.Reset | src/common/ipfixlolib/ipfixlolib.c:1221-1238 | A reset buffer holds no sets. |
| DataBuffer.SendBuffer.StartSet | src/common/ipfixlolib/ipfixlolib.c:2142-2184 | Opens a set exactly when none is open and entries and headers suffice; otherwise nothing changes. |
| DataBuffer.SendBuffer.PutField | src/common/ipfixlolib/ipfixlolib.c:2265-2280 | Appends the field to the open set exactly when there is one and an entry is free; otherwise nothing changes. |
| DataBuffer.SendBuffer.EndSet | src/common/ipfixlolib/ipfixlolib.c:2293-2329 | Turns the open set into an ended set with its records, exactly when there is one; otherwise nothing changes. |
| DataBuffer.SendBuffer.CancelSet | src/common/ipfixlolib/ipfixlolib.c:2345-2375 | Drops the open set, exactly when there is one; otherwise nothing changes. |
| DataBuffer.SendBuffer.SetMarker | src/common/ipfixlolib/ipfixlolib.c:2385-2389 | Protects the fields put so far from the next deletion. |
| DataBuffer.SendBuffer.DeleteUptoMarker | src/common/ipfixlolib/ipfixlolib.c:2399-2425 | Drops the fields put since the marker was set; without an open set nothing changes. |
| DataBuffer.SendBuffer.TakeBack | src/common/ipfixlolib/ipfixlolib.c:2412-2418 | The loop subtracts from data_length exactly the bytes of the deleted fields and leaves the entries before the marker alone. |
| DataBuffer.SendBuffer.CommittedBytes | src/common/ipfixlolib/ipfixlolib.c:2322-2326 | The bytes of entries 1 to committed are the encoded ended sets, also while another set is open. |
| DataBuffer.SendBuffer.AnyRun | src/common/ipfixlolib/ipfixlolib.c:2142-2425 | After any run of start, put, mark, delete, cancel and end calls a collector reads from the committed entries exactly the sets the run ended, if and only if each is shorter than 2^16 bytes. |
| MessageSize.RemainingSpace | src/common/ipfixlolib/ipfixlolib.c:2219-2232 | The result is what is left of the maximum after header, ended sets and open set, and 0 where nothing is left, if and only if the count is at most the maximum and no ended set was cut off to 16 bits, or the count is above the maximum by at most 2^31, modulo 2^32. |
| MessageSize.ReportIsExact | src/common/ipfixlolib/ipfixlolib.c:2219-2232 | The same equivalence for every content of the buffer and every maximum. |
| MessageSize.ReportBelowWrap | src/common/ipfixlolib/ipfixlolib.c:2221-2227 | Up to a count of 2^31 the report is right if and only if each ended set fits in 16 bits or the count reaches the maximum. |
| MessageSize.SpaceWronglyReported | src/common/ipfixlolib/ipfixlolib.c:2219-2232 | After a set with one field of 65532 bytes, 1384 of 1400 bytes are reported free although none is left. |
| MessageSize.WithinReportsTruly | src/common/ipfixlolib/ipfixlolib.c:2219-2232 | While the message stays within the maximum the report is right. |
| MessageSize.SizeBound | src/common/ipfixlolib/ipfixlolib.c:2219-2232 | Over every run of a user who starts a set only with 4 bytes of space and puts only fields that fit, the message stays within the maximum, no length is truncated, and a collector reads back the sets. |
| MessageSize.UsedAfter | src/common/ipfixlolib/ipfixlolib.c:2142-2425 | No call but a start (4 bytes) or a put (its field) makes the message longer. |
| PathMtu.DiscoveredOverDtls | src/common/ipfixlolib/ipfixlolib.c:594-626 | Over DTLS an MTU is found if and only if there is an SSL object and it or its BIO gives a positive answer. |
| PathMtu.LeastStep | src/common/ipfixlolib/ipfixlolib.c:543-571 | One more collector lowers the limit to its own if and only if it is in use over UDP and its limit is smaller. |
| PathMtu.GreatestMessageFits | src/common/ipfixlolib/ipfixlolib.c:547-566 | Where the limit suits a collector in the 16-bit arithmetic of the source, a message of the limit fits its MTU with all headers if and only if the MTU is at least the size of the headers. |
| PathMtu.BuiltMessageFits | src/common/ipfixlolib/ipfixlolib.c:538-576 | Whatever a user builds who asks for the remaining space fits the path of every collector over UDP whose MTU holds the headers. |
| PathMtu.SizedSuitsPaths | src/common/ipfixlolib/ipfixlolib.c:538-576 | The same for every collector of an exporter. |
| PathMtu.LeastOfOne | src/common/ipfixlolib/ipfixlolib.c:538-576 | Where the limit suits all other collectors, an update lowers it exactly to the limit of the one that is left, if that is smaller. |
| TemplateWire.TemplateRoundTrip | src/common/ipfixlolib/ipfixlolib.c:2585-2703 | The bytes of a template set decode to its id and fields, with enterprise numbers, if and only if the set is shorter than 2^16 bytes. |
| TemplateWire.WithdrawalRoundTrip | src/common/ipfixlolib/ipfixlolib.c:1014-1035 | A withdrawal is 8 bytes and decodes to the id without fields. |
| TemplateWire.WithdrawalIsDistinct | src/common/ipfixlolib/ipfixlolib.c:2454-2550 | The bytes of a template equal its withdrawal if and only if it has no fields. |
| TemplateWire.MeaningIsEncodable | src/common/ipfixlolib/ipfixlolib.c:2593-2598 | Whatever type and enterprise number are passed, the field asked for has an id below the enterprise bit. |
| TemplateBuilder.Write16 | src/common/ipfixlolib/encoding.c:129-141 | Writes two bytes at the position and nothing else, and refuses exactly when they would pass the end. |
| TemplateBuilder.Write32 | src/common/ipfixlolib/encoding.c:153-162 | The same for four bytes. |
| TemplateBuilder.MeaningBytes | src/common/ipfixlolib/ipfixlolib.c:2593-2637 | The bytes of a field carry the enterprise bit and number exactly when the type has the bit or the number is not 0. |
| TemplateBuilder.TemplateSlot.HoldsTemplate | src/common/ipfixlolib/ipfixlolib.c:1437-1484 | Once a template is complete, the part of its buffer that goes out is exactly its template set. |
| TemplateBuilder.TemplateSlot.Begin | src/common/ipfixlolib/ipfixlolib.c:2491-2549 | A new template has its own buffer of 8 bytes per announced field, with the header written and no write refused. |
| TemplateBuilder.TemplateSlot.Put | src/common/ipfixlolib/ipfixlolib.c:2585-2649 | Appends the field asked for, exactly while fewer fields than announced have been put; the buffer stays an image of the fields and no write is refused. |
| TemplateBuilder.TemplateSlot.WriteField | src/common/ipfixlolib/ipfixlolib.c:2623-2646 | Appends exactly the bytes of the field to what was written before. |
| TemplateBuilder.TemplateSlot.End | src/common/ipfixlolib/ipfixlolib.c:2660-2703 | Succeeds exactly when the announced number of fields was put, and then a buffer of just that size holds the whole template set with its length; otherwise the entry is free. |
| TemplateBuilder.TemplateSlot.Withdraw | src/common/ipfixlolib/ipfixlolib.c:1014-1035 | Turns a complete template in its own buffer into its 8-byte withdrawal. |
| TemplateBuilder.DefineTemplate | src/common/ipfixlolib/ipfixlolib.c:2454-2703 | For every sequence of start, puts and end: it succeeds exactly when enough fields were put, and then the buffer decodes to the id and the first announced fields if and only if it holds fewer than 2^16 bytes. |
| TemplateCycle.AlternatesLonger | src/common/ipfixlolib/ipfixlolib.c:1431-1487 | What is placed next keeps the turns exactly when a collector reads it as the definition of an undefined id or the withdrawal of a defined one; a template set without fields is a withdrawal. |
| TemplateCycle.Silent | src/common/ipfixlolib/ipfixlolib.c:2490-2510 | A change of a slot that makes no difference to what the collectors have keeps ids unique, collectors and slots in agreement and the turns intact. |
| TemplateCycle.ChangeIsSafe | src/common/ipfixlolib/ipfixlolib.c:2713-2729 | Any change of a live slot keeps collectors and slots in agreement if and only if the collectors have its template after as before. |
| TemplateCycle.FinishedIsSafe | src/common/ipfixlolib/ipfixlolib.c:2660-2703 | Ending a template keeps them in agreement if and only if it is being defined with fields, or is committed or withdrawn and not sent since. |
| TemplateCycle.GoneIsSafe | src/common/ipfixlolib/ipfixlolib.c:1004-1041 | Removing a template keeps them in agreement if and only if it is not waiting to be withdrawn and, if it was ended, has fields. |
| TemplateCycle.PlaceSlot | src/common/ipfixlolib/ipfixlolib.c:1432-1486 | Placing one slot keeps unique ids, agreement between slots and history, and the turns. |
| TemplateCycle.PlaceAll | src/common/ipfixlolib/ipfixlolib.c:1418-1494 | So does placing all of them. |
| TemplateCycle.PlacedReads | src/common/ipfixlolib/ipfixlolib.c:1437-1484 | A placement is the id and the field count that a collector reads in the bytes of the slot; it is a withdrawal if and only if the bytes are those of one; and the collector decodes the fields that were put if and only if the set is shorter than 2^16 bytes. |
| TemplateCycle.OutOfTurn | src/common/ipfixlolib/ipfixlolib.c:1432-1486 | A slot that waits with a definition of a defined id, or without fields for an undefined one, makes the next update break the turns. |
| TemplateCycle.CommitKeepsTurns | src/common/ipfixlolib/ipfixlolib.c:2660-2703 | Ending a template: after the next update definitions and withdrawals, as read, still take turns if and only if it was being defined with fields, or was committed or withdrawn and not sent since. So a sent template is defined twice, and one without fields or one already withdrawn is withdrawn without being defined. |
| TemplateCycle.GiveUpKeepsTurns | src/common/ipfixlolib/ipfixlolib.c:1036-1038 | Freeing an entry and defining its id again, in any entry with any fields: after the next update they still take turns, as read, if and only if the collectors did not have the old template and the new one has fields, or they had it and the new one has none. |
| TemplateTable.TemplateBuffer.Add | src/common/ipfixlolib/ipfixlolib.c:1438-1458 | An entry points to the template's own buffer, unless there is no room; the buffers pointed to are the template sets in order, and committed_data_length is the sum of their lengths. |
| TemplateTable.TemplateTable.constructor | src/common/ipfixlolib/ipfixlolib.c:449-461 | A new exporter has 16 free entries with a buffer each, has placed nothing and is in agreement with the collectors. |
| TemplateTable.TemplateTable.Find | src/common/ipfixlolib/ipfixlolib.c:959-976 | Finds the only live slot with the id, or there is none. |
| TemplateTable.TemplateTable.FreeSlot | src/common/ipfixlolib/ipfixlolib.c:978-990 | Finds a free slot, or there is none. |
| TemplateTable.TemplateTable.PointAt | src/common/ipfixlolib/ipfixlolib.c:1437-1484 | What is new or withdrawn is pointed to by the SCTP buffer, what is new or sent by the UDP buffer, and reads there as the template set; neither ever runs out of entries. |
| TemplateTable.PlacementsAreRead | src/common/ipfixlolib/ipfixlolib.c:1432-1486 | The placements of an update are what a collector reads at the beginning of each template set in the SCTP buffer. |
| TemplateTable.TemplateTable.Update | src/common/ipfixlolib/ipfixlolib.c:1418-1494 | The SCTP buffer points to exactly the committed and withdrawn templates, and the history grows by what a collector reads there; the UDP buffer points to exactly the sent templates in their order; agreement with the collectors is kept. |
| TemplateTable.TemplateTable.Remove | src/common/ipfixlolib/ipfixlolib.c:1004-1041 | A sent template becomes a withdrawal in its own buffer, any other is dropped, and no other entry changes; fails exactly when the id is unknown. Agreement with the collectors is kept if and only if the template is not waiting to be withdrawn and, if it was ended, has fields. |
| TemplateTable.TemplateTable.PutField | src/common/ipfixlolib/ipfixlolib.c:2585-2649 | Adds the field exactly when a template under the id lacks announced fields, which only one being defined does; otherwise nothing changes. |
| TemplateTable.TemplateTable.End | src/common/ipfixlolib/ipfixlolib.c:2660-2703 | A template with the announced number of fields is committed, any other is dropped. Agreement with the collectors is kept if and only if it was being defined with fields, or was committed or withdrawn and not sent since. |
| TemplateTable.TemplateTable.Start | src/common/ipfixlolib/ipfixlolib.c:2454-2510 | Fails exactly for an id up to 255 or when no entry is to be had, and then nothing changes. The history grows by exactly the placements of the update that sends the withdrawal, where a template was sent under the id, and by nothing otherwise. Agreement with the collectors is kept if and only if the old template was not ended without fields. |
| TemplateTable.TidyRun | src/common/ipfixlolib/ipfixlolib.c:2454-2703 | A run is allowed throughout if every template is announced with fields, ended only while it is being defined or waiting to be sent, and removed only while it is not waiting to be withdrawn. |
| TemplateTable.TemplateTable.AnyRun | src/common/ipfixlolib/ipfixlolib.c:2454-2703 | After any run no two live entries share an id and each buffer holds its template; the entries change, and the collectors are told, step by step as each call says. If each call kept to its condition, or all to these simple rules, definitions and withdrawals of each id have taken turns, as the collectors read them, beginning with a definition. |
| TemplateTable.TemplateTable.EndAgain | src/common/ipfixlolib/ipfixlolib.c:2660-2703 | From every state in agreement: every end of a template outside its condition (sent, withdrawal sent, or announced without fields) makes the next update break the turns. |
| TemplateTable.TemplateTable.RemoveAgain | src/common/ipfixlolib/ipfixlolib.c:1004-1041 | From every state in agreement: removing a sent template with fields twice, defining its id again with one field and updating defines it twice. |
| TemplateTable.RemovedTwice | src/common/ipfixlolib/ipfixlolib.c:1036-1038 | For a new template with any fields, in any entry: the turns are kept if and only if it has none, which makes it the withdrawal that was lost. |
| TemplateTable.SentAfter | src/common/ipfixlolib/ipfixlolib.c:1437-1474 | After an update the templates in state sent are those that were committed or sent before, in the same order. |
| Messages.TotalLength | src/common/ipfixlolib/ipfixlolib.c:1085-1106 | The length written to a header is 16 plus the count or, where that is 0, plus the lengths of the entries, modulo 2^16. |
| Messages.CountedIsLength | src/common/ipfixlolib/ipfixlolib.c:2312-2316 | Modulo 2^16, the count of the ended sets is the length of their bytes, whether they fit in 16 bits or not. |
| Messages.LengthIsExact | src/common/ipfixlolib/ipfixlolib.c:1085-1109 | For data and template messages: Length is the number of bytes of header and body if and only if these are fewer than 2^16. |
| Messages.LengthOverUdp | src/common/ipfixlolib/ipfixlolib.c:1085-1109 | What collectors over UDP get of a data message is as long as Length says if and only if, besides, no set was open. |
| Messages.CorrectAt | src/common/ipfixlolib/ipfixlolib.c:1108-1112 | In a correct log every data message has the bytes of its ended sets; every message has its length modulo 2^16, and as sequence number the data records ended up to the last data message, sent or dropped, modulo 2^32; and only sets whose length fields add up to 0 are dropped. |
| Messages.MessageReadsBack | src/common/ipfixlolib/ipfixlolib.c:1949-2056 | A collector reads back the sets of a message if and only if each fits in 16 bits. |
| Messages.SequenceIsExact | src/common/ipfixlolib/ipfixlolib.c:2068-2071 | The sequence number is the number of data records sent before, modulo 2^32, if and only if the number of data records in the batches dropped before the last data message is a multiple of 2^32. |
| Messages.ShortIsFaithful | src/common/ipfixlolib/ipfixlolib.c:1949-2077 | In a correct log every sequence number is the number of data records sent before, every data message reads back and no set is dropped, if and only if each set handed over is shorter than 2^16 bytes. |
| Messages.RunIsFaithful | src/common/ipfixlolib/ipfixlolib.c:1949-2107 | The same for the sets that a run has handed over, and so for every run in which each set is shorter than 2^16 bytes when it is ended; where no set is open when data is sent, nothing goes out behind the sets. |
| Messages.FittingSetsAreSent | src/common/ipfixlolib/ipfixlolib.c:1952-1953 | Sets that fit in 16 bits are never dropped. |
| Messages.Miscounted | src/common/ipfixlolib/ipfixlolib.c:1949-2077 | A set of 65532 bytes has the length field 0: it is not sent, its record is counted, and the second message behind it carries 2 instead of 1. |
| Messages.BalancedEnd | src/common/ipfixlolib/ipfixlolib.c:2308-2319 | Ending a set adds its records to the increment and to nothing else. |
| Messages.BalancedSend | src/common/ipfixlolib/ipfixlolib.c:2068-2071 | Sending moves the increment into the sequence number, which then counts all data records ended so far, with those dropped before. |
| Messages.BalancedDrop | src/common/ipfixlolib/ipfixlolib.c:1952-1953 | Dropping sets leaves sequence number and increment as they are. |
| Messages.Exporter.EndSet | src/common/ipfixlolib/ipfixlolib.c:2293-2329 | The call on the buffer together with the increment; refused exactly when no set is open. |
| Messages.Exporter.HandedOver | src/common/ipfixlolib/ipfixlolib.c:1974-2056 | The committed entries gather to the encoded ended sets; all entries gather to these and the bytes of the open set, which are none if and only if no set is open. |
| Messages.Exporter.SendData | src/common/ipfixlolib/ipfixlolib.c:1949-2077 | Where the length fields of the ended sets add up to more than 0, one message goes out with the bytes of the committed entries and the sequence number of before, and to collectors over UDP with the bytes of an open set behind it; otherwise the sets are dropped. The buffer is emptied. |
| Messages.Exporter.SendTemplates | src/common/ipfixlolib/ipfixlolib.c:1736-1815 | A template message consists of the bytes that the buffer points to, carries the sequence number and does not change it. |
| Messages.AnyRun | src/common/ipfixlolib/ipfixlolib.c:1949-2107 | Over any run of building and sending sets, managing templates and sending the updated template buffers, the log is correct and about exactly the batches that the run handed over. Every sequence number is exact, every data message reads back and no set is dropped, if and only if each set handed over is shorter than 2^16 bytes; so it is if each is when it is ended. If no set is open when data is sent, nothing goes out behind the sets. |
| Resources.TracksAdd | src/common/ipfixlolib/ipfixlolib_dtls.c:204-219 | A place that held nothing can take a new resource and is then its only owner. |
| Resources.TracksRemove | src/common/ipfixlolib/ipfixlolib_dtls.c:394-406 | A place that gives up its resource was its only owner. |
| Resources.TracksSwap | src/common/ipfixlolib/ipfixlolib_dtls.c:358-363 | Swapping the two connections of a collector swaps the owners and loses nothing. |
| Resources.TrackedIsHeld | src/common/ipfixlolib/ipfixlolib_dtls.c:186-279 | What is in use is exactly what the connections hold, and no two connections hold the same. |
| Dtls.Exporter.constructor | src/common/ipfixlolib/ipfixlolib.c:1261-1294 | A new exporter has free slots that hold nothing, and the conservative limit of 1400 bytes. |
| Dtls.Exporter.NothingLeaks | src/common/ipfixlolib/ipfixlolib_dtls.c:186-279 | The open sockets and SSL objects are those the connections hold. |
| Dtls.Exporter.Setup | src/common/ipfixlolib/ipfixlolib_dtls.c:186-279 | Leaves a live connection or, after any failure on the way, one that holds nothing. |
| Dtls.Exporter.ShutdownAndCleanup | src/common/ipfixlolib/ipfixlolib_dtls.c:365-407 | Gives back both the SSL object and the socket, once each. |
| Dtls.Exporter.Connect | src/common/ipfixlolib/ipfixlolib_dtls.c:297-325 | Establishes the connection, leaves it as it was, or leaves nothing of it, as the handshake and the verification of the peer come out. |
| Dtls.Exporter.ReplacementReady | src/common/ipfixlolib/ipfixlolib_dtls.c:327-356 | Touches the replacement connection only; a replacement is live unless the call fails, and established exactly when it returns 1. |
| Dtls.Exporter.Swap | src/common/ipfixlolib/ipfixlolib_dtls.c:358-363 | Exchanges main and replacement, with their resources. |
| Dtls.Exporter.RemoveCollector | src/common/ipfixlolib/ipfixlolib.c:885-914 | Frees the slot and everything its two connections hold. |
| Dtls.Exporter.UpdateMaxMessageSize | src/common/ipfixlolib/ipfixlolib.c:538-576 | The new limit is the least of the old limit and the limits of the collectors in use over UDP and DTLS over UDP; so it never grows. |
| Dtls.Exporter.UpdateMtu | src/common/ipfixlolib/ipfixlolib.c:582-638 | Nothing changes unless the MTU is to be discovered. Then the collector is removed if and only if socket, SSL object and BIO give no MTU, and otherwise has the MTU found, and the limit suits all collectors. |
| Dtls.Exporter.SendHelper | src/common/ipfixlolib/ipfixlolib_dtls.c:508-550 | Writes only to a connection whose handshake is over and over which the templates have been offered, and shuts it down exactly when it returns -2. |
| Dtls.Exporter.Send | src/common/ipfixlolib/ipfixlolib_dtls.c:557-577 | Sends nothing unless connected; a failed collector is disconnected with an empty main connection; one whose MTU is asked for again has another MTU or is removed. |
| Dtls.Exporter.SendTemplates | src/common/ipfixlolib/ipfixlolib_dtls.c:579-590 | Offers the templates over the main connection, with the outcomes of a send. |
| Dtls.Exporter.TwoObjects | src/common/ipfixlolib/ipfixlolib_dtls.c:358-363 | The two connections of a collector never share an SSL object. |
| Dtls.Exporter.TakeOver | src/common/ipfixlolib/ipfixlolib_dtls.c:436-448 | The replacement becomes the main connection, the old one is given back, and the templates are offered over the new one. |
| Dtls.Exporter.Renew | src/common/ipfixlolib/ipfixlolib_dtls.c:426-450 | A connection within its lifetime is left alone; an old one stays in use until the replacement is established, and then another SSL object is in use and nothing of the old one is left. |
| Dtls.Exporter.Advance | src/common/ipfixlolib/ipfixlolib_dtls.c:451-479 | The handshake goes on exactly while it wants to read; refused, nothing is left of the connection; completed, the collector is no longer new. |
| Dtls.Exporter.Welcome | src/common/ipfixlolib/ipfixlolib_dtls.c:455-469 | After the handshake the collector is connected with the templates offered, disconnected, or removed for want of an MTU, and 0 is returned only in the first case. |
| Dtls.Exporter.Retry | src/common/ipfixlolib/ipfixlolib_dtls.c:480-494 | A disconnected collector gets a new connection exactly when the wait is over and the setup succeeds; otherwise it stays as it is. |
| Dtls.Exporter.Manage | src/common/ipfixlolib/ipfixlolib_dtls.c:423-495 | For each state, clock and outcome of the handshake: which states follow, what is left of the connections, and the return value; 0 means connected with the templates offered, or removed for want of an MTU. |
| Dtls.Exporter.Take | src/common/ipfixlolib/ipfixlolib.c:715-736 | A slot is taken with the limit lowered to suit its collector, or stays free for want of an MTU; the limit suits all collectors either way. |
| Dtls.Exporter.AddDtls | src/common/ipfixlolib/ipfixlolib_dtls.c:592-651 | On failure the slot is free and holds nothing; success needs the configuration; a configured MTU is kept, and lowers the limit exactly to what the collector allows, if that is less. |
| Dtls.Exporter.AddTiny | src/common/ipfixlolib/ipfixlolib.c:557-570 | With a configured MTU of 100 bytes, less than the headers, the limit stays at 1400 bytes, which does not fit the path. |
| Dtls.Exporter.AddOther | src/common/ipfixlolib/ipfixlolib.c:693-738 | The slot is in use if and only if the call succeeds; a configured MTU is kept, and the limit suits all collectors. |
| Dtls.Exporter.AdvanceAll | src/common/ipfixlolib/ipfixlolib_dtls.c:761-775 | Manages every DTLS collector once, leaves the others alone, and returns 1 if one of them needs another call. |
| Dtls.Exporter.SendAllTemplates | src/common/ipfixlolib/ipfixlolib.c:1752-1802 | The loop ends early only at a DTLS collector that is not connected, and then all collectors behind it are left alone; what is open stays what the connections hold, and the limit does not grow. |
| Dtls.Exporter.Deinit | src/common/ipfixlolib/ipfixlolib.c:499-536 | No socket is open and no SSL object is left. |
| Dtls.Exporter.AnyRun | src/common/ipfixlolib/ipfixlolib_dtls.c:423-651 | After any run of adding and removing collectors of any transport, sending data and templates and managing one or all connections, with any answers of OpenSSL, sockets and clock: what is open is what the connections hold, all collectors are well formed, the limit for messages has not grown, and a message of that length fits the path of a collector over UDP if and only if its MTU is at least the size of the headers. |
| CryptoPan.Anonymize | src/common/cryptopan/panonymizer.cpp:28-68 | The loop with its input buffer computes the address masked with one pseudorandom bit per prefix. |
| CryptoPan.FlipOfPrefix | src/common/cryptopan/panonymizer.cpp:42-64 | The bit for a position depends on the bits before it only. |
| CryptoPan.MaskBit | src/common/cryptopan/panonymizer.cpp:42-66 | Each bit of the mask is the one generated for its position. |
| CryptoPan.PrefixPreserving | src/common/cryptopan/panonymizer.cpp:28-68 | For every cipher, pad and length k, two addresses share their first k bits if and only if their images do. |
| CryptoPan.Injective | src/common/cryptopan/panonymizer.cpp:28-68 | Different addresses have different images. |
| CryptoPan.Surjective | src/common/cryptopan/panonymizer.cpp:28-68 | Every address is an image. |
| Subnets.InTarget | src/common/anon/AnonCryptoPanPrefix.cpp:105-110 | Every pseudonym lies in the target subnet. |
| Subnets.PrefixKept | src/common/anon/AnonCryptoPanPrefix.cpp:105-110 | Addresses of one subnet share a prefix of any length if and only if their pseudonyms do; so the map is injective there. |
| SubnetSearch.TableHolds | src/common/anon/AnonCryptoPanPrefix.cpp:80-83 | The table holds under each base the subnet configured with it last. |
| SubnetSearch.StopsAtLongestHit | src/common/anon/AnonCryptoPanPrefix.cpp:97-102 | The search stops at the longest configured length at which the address, cut, is a configured base, or there is none. |
| SubnetSearch.SelectionIsLongest | src/common/anon/AnonCryptoPanPrefix.cpp:97-102 | The search selects the longest configured subnet of the address if and only if, at the longest length that hits a base, the last subnet configured with that base is no longer than this length and none with that base has a length in between. |
| SubnetSearch.DistinctBasesAreClear | src/common/anon/AnonCryptoPanPrefix.cpp:97-102 | If no configured base is unchanged by a shorter configured length, this condition holds for every address. |
| SubnetSearch.Mapping.Build | src/common/anon/AnonCryptoPanPrefix.cpp:35-86 | Refuses exactly a length above 32; otherwise the table is that of the configuration and the lengths are all configured ones, each once, falling. |
| SubnetSearch.Mapping.Add | src/common/anon/AnonCryptoPanPrefix.cpp:68-83 | One more subnet enters the table, and its length the list unless it is there. |
| SubnetSearch.Mapping.HasCidr | src/common/anon/AnonCryptoPanPrefix.cpp:68-74 | Tells whether a length is in the list. |
| SubnetSearch.Mapping.Find | src/common/anon/AnonCryptoPanPrefix.cpp:97-102 | The loop finds the entry at the first length at which the table has the address. |
| SubnetTable.CutIsLawful | src/common/anon/AnonCryptoPanPrefix.cpp:80-99 | With the masks of the source, cutting an address twice is cutting it once, at the shorter length. |
| SubnetTable.Pseudomize | src/common/anon/AnonCryptoPanPrefix.cpp:92-114 | The result is the pseudonym in the subnet found, or the address itself. Where the condition holds, the subnet found is the longest one configured for the address, and the address is left alone exactly where none contains it. |
| SubnetTable.PseudomizeWith | src/common/anon/AnonCryptoPanPrefix.cpp:35-114 | From the configuration to the pseudonym: with distinct bases every address gets the pseudonym of its longest subnet, or itself. |
| SubnetTable.SubnetKept | src/common/anon/AnonCryptoPanPrefix.cpp:92-114 | Two addresses with the same longest subnet, with any pseudonyms that pseudomize may give them, go into its target and share a prefix of any length if and only if their pseudonyms do. |
| SubnetTable.WrongSubnetFound | src/common/anon/AnonCryptoPanPrefix.cpp:97-102 | With 10.0.0.0/16 and 172.0.0.0/8 configured, the search finds the first for 10.5.0.0, which lies outside both. |
| Fips180.PaddingFills | src/common/hmacsha1/sha1.cpp:157-161 | The padding of section 5.1.1 of FIPS 180-4 fills the last block. |
| Fips180.PaddingIsLeast | src/common/hmacsha1/sha1.cpp:158-160 | No shorter run of zeros would. |
| Sha1Transform.ChForm | src/common/hmacsha1/sha1.cpp:44-45 | The rewritten choice function is that of the standard. |
| Sha1Transform.MajForm | src/common/hmacsha1/sha1.cpp:47 | So is the rewritten majority function. |
| Sha1Transform.Blk0SwapsBytes | src/common/hmacsha1/sha1.cpp:34-36 | On a little-endian machine blk0 yields the big-endian word. |
| Sha1Transform.Blk | src/common/hmacsha1/sha1.cpp:40-41 | The ring of sixteen words yields word i of the 80-word schedule, for every round from 16 on. |
| Sha1Transform.Transform | src/common/hmacsha1/sha1.cpp:53-106 | The 80 unrolled calls with rotated names compute the hash computation of section 6.1.2 of FIPS 180-4, for every state and block. |
| Sha1.AdvanceIsExact | src/common/hmacsha1/sha1.cpp:131-132 | The two 32-bit counts with their carry hold the exact 64-bit bit count. |
| Sha1.ZeroRun | src/common/hmacsha1/sha1.cpp:158-160 | The padding loop ends after exactly the standard's run of zeros. |
| Sha1.Context.constructor | src/common/hmacsha1/sha1.cpp:111-121 | A new context has taken the empty message. |
| Sha1.CopyFits | src/common/hmacsha1/sha1.cpp:133-142 | What the 32-bit test lets through to the last copy fits the buffer if and only if offset and length add up to less than 2^32. |
| Sha1.Context.Update | src/common/hmacsha1/sha1.cpp:126-143 | A context that has taken m has then taken m and the data, for every length for which that copy fits. |
| Sha1.Context.Final | src/common/hmacsha1/sha1.cpp:148-175 | The digest is the SHA-1 hash of all that was taken, and the context is wiped. |
| Hmac.HashPieces | src/common/hmacsha1/sha1.cpp:126-165 | However a message is cut into updates, the digest is the hash of the whole. |
| Hmac.Pads | src/common/hmacsha1/sha1_hmac.cpp:29-36 | The two pads are the filled-up key masked with 0x36 and 0x5C. |
| Hmac.Sha1Hmac | src/common/hmacsha1/sha1_hmac.cpp:11-55 | The result is HMAC of section 2 of RFC 2104, for keys and texts of any length below 2^32; for longer ones it is HMAC of what the casts to 32 bits leave of them. |
| ConcurrentQueue.StepBalanced | src/common/ConcurrentQueue.h:26-125 | Every step of every thread keeps places, elements, tokens and lost tokens in balance. |
| ConcurrentQueue.QueueIsSafe | src/common/ConcurrentQueue.h:26-125 | In every interleaving, with shutdown and restart: the queue never exceeds its maximum, no pop sees it empty, and what was popped is a prefix of what was pushed. |
| ConcurrentQueue.NothingLost | src/common/TimeoutSemaphore.h:86-161 | Without a shutdown no token is lost. |
| ConcurrentQueue.CapacityAtRest | src/common/TimeoutSemaphore.h:86-161 | At rest the semaphores fall short of the queue by exactly the lost tokens. |
| ConcurrentQueue.ClosedForGood | src/common/ConcurrentQueue.h:26-125 | Once as many tokens of both semaphores are lost as there are places, nothing is ever pushed or popped again. |
| ConcurrentQueue.TokenLeftWorks | src/common/ConcurrentQueue.h:26-125 | While one token is left, from every reachable state some continuation pushes another element and pops another one. |
| ConcurrentQueue.ClosedExactly | src/common/ConcurrentQueue.h:26-125 | So a queue never pushes again, and never pops again, if and only if all tokens are lost. |
| ConcurrentQueue.ClosedAtRest | src/common/ConcurrentQueue.h:26-125 | With all threads idle this is the case if and only if both semaphores are at 0. |
| ConcurrentQueue.RestartedQueueCanBeStuck | src/common/TimeoutSemaphore.h:86-161 | A queue of one place can be restarted empty and closed for good, because a waiting push took its token and failed. |
| ConcurrentQueue.RestartedFullQueueCanBeStuck | src/common/TimeoutSemaphore.h:86-161 | It can also be restarted full and closed for good, because a waiting pop took its token and failed. |
| SourceLink.StepExclusive | src/core/Source.h:27-106 | Every step keeps mutual exclusion of the mutex and of syncLock. |
| SourceLink.StepConnected | src/core/Source.h:27-78 | Every step keeps destination, lock and connection in agreement. |
| SourceLink.StepBalanced | src/common/CountingSemaphore.cpp:34-89 | What a step does to the semaphore, with two for a thread between its two operations, is what it does to the connection. |
| SourceLink.StepCounted | src/common/CountingSemaphore.cpp:34-89 | Every step keeps the semaphore at 1 plus the connection, with two for each thread between its two operations. |
| SourceLink.RunInv | src/core/Source.h:24-106 | Every run keeps the invariant. |
| SourceLink.LinkIsSafe | src/core/Source.h:60-106 | In every interleaving at most one receive runs, a sender with syncLock has a destination, and dest is never cleared during a receive. |
| SourceLink.NoLateReceive | src/core/Source.h:60-106 | After disconnect has returned no receive runs over the connection it closed. |
| SourceLink.DisconnectCloses | src/core/Source.h:60-78 | The step by which disconnect returns closes the open connection. |
| Topology.Leave | src/core/Graph.cpp:242-244 | A node left after all its successors have been visited extends the finishing order. |
| Topology.FewFinished | src/core/Graph.cpp:258-263 | A search that takes nodes of an earlier sort for visited finishes fewer nodes than there are, and none where it takes them all for visited. |
| Topology.WithoutFirst | src/core/Graph.cpp:265-269 | An order without its first node is an order of the remaining ids if and only if the first node has the highest id. |
| Topology.StillForward | src/core/Graph.cpp:265-269 | Where edges change and nodes do not, an order that was forward still is if and only if each new edge goes forward in it. |
| Topology.ForwardWithout | src/core/Graph.cpp:111-129 | After a removal, an order of the remaining ids is forward if and only if each edge that is left goes forward under the new ids of its nodes. |
| Topology.FirstGoes | src/core/Graph.cpp:111-129 | If the node with the highest id is removed and came first, the rest of the order is forward. |
| Topology.FinishedIsForward | src/core/Graph.cpp:265-269 | In the reversed finishing order of a graph without cycles every edge goes forward. |
| Topology.ForwardMeansAcyclic | src/core/Graph.cpp:247-275 | No graph with a cycle has such an order. |
| Topology.StartOrder | src/modules/ConfigManager.cpp:213-217 | Backwards through a forward order every node comes after all its successors. |
| Topology.StopOrder | src/modules/ConfigManager.cpp:232-236 | Forwards through it every node comes after all its predecessors. |
| Graphs.MovedRowPermutes | src/core/Graph.cpp:112-119 | Moving the removed row to the end keeps the rows a permutation of the allocated ones. |
| Graphs.RemovedIsInduced | src/core/Graph.cpp:98-129 | The moved rows and columns are the induced subgraph, and null outside the live square. |
| Graphs.Graph.constructor | src/core/Graph.cpp:24-32 | An empty graph without edges. |
| Graphs.Graph.AddNode | src/core/Graph.cpp:60-74 | Adds a node unless the matrix is full, and leaves the edges alone. |
| Graphs.Graph.AddEdge | src/core/Graph.cpp:132-140 | Adds the edge unless it is there, and no other. |
| Graphs.Graph.RemoveNode | src/core/Graph.cpp:89-130 | Leaves exactly the edges between surviving nodes, each node numbered by its place and the same rows in use; refuses a node of another graph. |
| Graphs.Graph.GetDestinations | src/core/Graph.cpp:203-212 | Exactly the successors, by rising id. |
| Graphs.Graph.DepthSearch | src/core/Graph.cpp:226-245 | The recursive search ends, finishes the node and everything reached from it, and keeps what was finished. |
| Graphs.Graph.TopoSort | src/core/Graph.cpp:247-275 | After any earlier sorts and changes of the graph. The first sort returns every node once, and every edge goes forward if and only if the graph has no cycle. A later one does not look at the edges: it returns the end of the order that the vectors still hold, if and only if this is an order of the present nodes; otherwise it reads outside them. |
| Graphs.SortAfterAdding | src/core/Graph.cpp:247-275 | A sorted graph to which a node has just been added cannot be sorted: the sort reads outside the nodes. |
| Graphs.SortAfterAddingEdge | src/core/Graph.cpp:132-140 | A sorted graph to which an edge has been added is sorted again as before, and every edge goes forward if and only if the new one leads from an earlier to a later node. |
| Graphs.SortTwoJoinSort | src/core/Graph.cpp:132-140 | Two nodes sorted and then joined from the second to the first: the graph has no cycle, and the next sort has the edge backward. |
| Graphs.SortAfterRemoving | src/core/Graph.cpp:89-130 | A sorted graph without one of its nodes can be sorted again if and only if the node with the highest id came first; every edge then goes forward if and only if the edges that are left do so under the new ids of their nodes, as they do when that very node was removed. |
| Graphs.SortThreeRemoveSort | src/core/Graph.cpp:89-130 | Three nodes sorted as 2, 0, 1 along their edges, and node 0 removed: the graph has no cycle, and the next sort has the remaining edge backward. |
| Graphs.SortOneAddSort | src/core/Graph.cpp:247-275 | One node sorted and a second added: the next sort reads outside the nodes. |
| Graphs.StartAll | src/modules/ConfigManager.cpp:211-217 | In a graph without cycles each module starts after all modules it sends to. |
| Graphs.StopAll | src/modules/ConfigManager.cpp:229-236 | In a graph without cycles each module stops after all modules that send to it. |
| MinFilter.Filter.Set | src/common/bloom/MinBloomFilter.h:61-74 | Each cell is updated once for each hash function that leads the key there, in both row modes, and no other cell. |
| MinFilter.Filter.Get | src/common/bloom/MinBloomFilter.h:41-59 | The least value the hash functions find, or INT_MAX. |
| MinFilter.CountIsWeight | src/common/bloom/CountBloomFilter.cpp:34-50 | A cell of the count filter holds exactly the values of all keys, each as often as it is hashed there. |
| MinFilter.CountNeverUnder | src/common/bloom/CountBloomFilter.cpp:34-50 | After any history of non-negative values the count filter reports at least the key's total, capped at INT_MAX. |
| MinFilter.CountFits | src/common/bloom/CountBloomFilter.cpp:34-40 | No cell exceeds the sum of all values once for each hash function. |
| MinFilter.AgeNeverUnder | src/common/bloom/AgeBloomFilter.cpp:34-47 | With times that do not run backwards the age filter reports at least the key's last time, capped at INT_MAX. |
| BitFilter.Filter.SetBit | src/common/bloom/BloomFilter.cpp:47-51 | Sets the bit in its octet and no other bit; an index out of range is ignored. |
| BitFilter.Filter.GetBit | src/common/bloom/BloomFilter.cpp:53-59 | Tells whether the bit is set; false out of range. |
| BitFilter.Filter.Set | src/common/bloom/BloomFilter.cpp:73-81 | Marks exactly the bits of the key. |
| BitFilter.Filter.Get | src/common/bloom/BloomFilter.cpp:83-95 | True exactly when every bit of the key was marked by some key. |
| BitFilter.NoFalseNegatives | src/common/bloom/BloomFilter.cpp:73-95 | A key that was set is always found. |

## Left out

- Sockets, SCTP, file and raw-directory output, delivery to each collector: foreign input and output; the model stops at the buffers and the headers handed over.
- NetFlow v9 headers and options templates: another header size; options templates are not implemented in the source.
- The clock: whether a lifetime or a wait is over is an input of Dtls.Exporter.Manage; the timer for template retransmission is left out.
- DataBuffer.SendBuffer.EndSet: the sequence number increment is modelled with Messages.Exporter.EndSet.
- Messages.Exporter.SendData: which collectors are connected and get the message; one log entry stands for all copies.
- Messages.AnyRun: the template message that ipfix_start_template sends itself when it withdraws an old template, which carries the sequence number and does not change it.
- Dtls.Exporter.AddDtls: the address, the host name and its memory.
- Dtls.Exporter.AddOther: the socket or file of a collector that is not reached over DTLS, which holds no DTLS connection.
- Rijndael: the block cipher is a parameter.
- SubnetSearch.Mapping.Build: a prefix length of 0, where the source shifts by 32 bits, which is undefined.
- SubnetTable.Pseudomize: the pseudonym in a subnet of length 32, for the same reason; the model gives any address there.
- Byte order of the machine: sha1.cpp is modelled from the words that blk0 yields, and addresses in host order.
- Sha1.Context.Update: data with which the source copies past its buffer, as CopyFits says.
- MinFilter.Filter.Set: overflow of a count, which is undefined in the source; CountFits says how to rule it out.
- The hash function of the filters: any function; NoFalseNegatives and the lower bounds need it to stay below the size.
- Edge objects, getSources, removeEdge, memory of the graph: easy members, and the source does not renumber edges.
- Liveness and wake-up order of the semaphores and spin locks: only safety is proved.
- connectToNothing, ConnectionSplitter, shutdown of the connection semaphore, reference counts: outside the link protocol.
- XML configuration, Cfg classes, logging, sensors, packet capture, flow aggregation, database and tools: plumbing, or behaviour that depends on data tables.
