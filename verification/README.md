# Librascal: a verified model

This project models seven parts of librascal, an asynchronous socket library, and proves what their
callers rely on. `dafny verify dfyconfig.toml` checks everything.

- **Service resolution** (`WeightedOrder`, `AddressList`, `ServiceMachine`, `Fanout`, `ServiceRuns`,
  `EveryRun`, `ServiceTheorems`, `LongNames`, `SrvAnswers`, `Responses`, `GetSrv`): SRV records, one address lookup
  per host, the address list sorted by priority and weighted random choice (RFC 2782), and the connect
  failover. `GetSrv` and `AddressList` read the packet and relink the nodes in place; `ServiceMachine` is
  the same machine on values. What is said of reports holds in all of its runs; what is said of lookups
  and of the order of addresses holds in the runs whose lookups a record can tell apart
  (`LongNames.OnTimeIffUnambiguous`). An address node that is refused drops its address; `dropped`
  keeps count.
- **Byte and packet queues** (`Bytes`, `Lines`, `DataChain`, `PacketChain`, `ChainRuns`): the chain of
  2048-byte blocks as a plain queue of bytes, or of packets, with its line reader.
- **DNS packets** (`DnsWire`, `DnsNames`, `DnsDecompress`, `DnsAnswers`): headers, names, compression
  pointers, answers (sections 3.1 and 4.1 of RFC 1035).
- **Paged allocator** (`PagedHeap` on values, `PageMan` in place).
- **Handle table and lifetimes** (`HandleTable`, `Stock`, `Lifetimes`, `RequestQueue`).
- **Single-writer protocol** (`WriterProtocol`, `WriterRuns`): every interleaving of `write` and write completions.
- **IPv4 text** (`InetText`, `InetPatterns`, `InetCode`): printing and parsing addresses.

`Common`, `Bytes` and `Chains` hold what the others share.

## What the code does not keep

Where a promise fails, a lemma gives an input and another one the exact condition.

| promise | fails for | holds if and only if |
|---|---|---|
| connecting starts behind the last answer | a host name of 64 characters or more in two records (`LongNames.LongNameConnectsEarly`) | no two lookups have the same first 63 characters where a record cuts them (`LongNames.OnTimeIffUnambiguous`, and on the response itself `LongNames.OnTimeIffClearNames`) |
| the user is told how the resolution ends | an attempt that ends with `rop_close` (`ServiceTheorems.ClosedAttemptStalls`) | no attempt ends so (`ServiceTheorems.ToldIffNoneClosed`) |
| bytes never wait without a writer | an append that runs out of memory (`WriterRuns.FailedAppendStrands`); a writer that is refused, after a `write` or after a completion (`WriterRuns.RefusedWriterStrands`, `WriterRuns.RefusedSuccessorStrands`) | no such append or refusal left bytes behind with no write under way, or bytes were taken out since (`WriterRuns.NoLostWakeup`) |
| each address is drawn by its weight | an address without weight in front of one with weight (`WeightedOrder.ZeroTakesTheDraw`) | addresses without weight come last in their group (`WeightedOrder.ProportionalIffZerosLast`) |
| reading a name ends | a pointer to itself (`DnsDecompress.SelfPointerLoops`) | every chain of bare pointers met while there is room in the buffer ends (`DnsDecompress.NameEndsIff`); for all names, no such chain runs in a circle (`DnsDecompress.ReadingEndsIffPointersEnd`) |
| a name that was put is skipped | a label of 64 bytes (`DnsNames.LongLabelTakenForPointer`) | no label is longer than 63 bytes (`DnsNames.SkipExactIffShort`, `DnsAnswers.QueryRoundTrip`) |
| an allocation finds memory that is there | a second object size (`PagedHeap.OtherSizeRefused`) | the first page with a free slot is for this size (`PagedHeap.SucceedsIff`) |
| a handle leads to its slot | adds alone, past 65536 slots (`HandleTable.HandleLeadsElsewhere`) | the slot number is below 65536 (`HandleTable.LooksUpOwnSlotIff`) |
| -1 is no handle | slot 65535 handed out and removed: -1 is found, and removing it makes two objects share the slot (`HandleTable.FailureRemovedTwice`) | this slot does not exist or is in use (`HandleTable.FailureFoundIff`) |
| a held object outlives a cancellation | two cancellations (`Lifetimes.CancelledTwice`) | its count is above one (`Lifetimes.OutlivesCancelIff`) |
| a printed address is read back | a buffer that is too small | the text and its terminator fit (`InetText.PrintedIsReadBackIff`) |

Two places look as if they did something else, and the model follows the code: the octets left
out of a dotted mask stay 255 (`sources/common/rascal_aton.cc:97` never runs), and text behind a mask
length is ignored.

## Model

| member | source | states |
|---|---|---|
| WeightedOrder.FallbackNeverTaken | sources/common/resolver/rascal_getsrv.cc:246-266 | For every list and every draw the walk stops inside the first priority group, so the "not found anything suitable" branch is never taken, even when the 32-bit weight sum wraps. |
| WeightedOrder.WalkFinds | sources/common/resolver/rascal_getsrv.cc:246-256 | While the random rest stays below the weight left in the group, the walk finds an element of the group; so the rest never underflows. |
| WeightedOrder.WalkIsLeast | sources/common/resolver/rascal_getsrv.cc:246-256 | The element picked for a draw is the first one whose prefix sum equals the draw or whose interval of draws holds it. |
| WeightedOrder.SelectingDraws | sources/common/resolver/rascal_getsrv.cc:237-256 | The exact set of draws that select an element, elements without weight included. |
| WeightedOrder.PositiveWeightsAreExact | sources/common/resolver/rascal_getsrv.cc:237-256 | With positive weights an element is selected by exactly the draws from its prefix sum up to the next one. |
| WeightedOrder.ChancesExactly | sources/common/resolver/rascal_getsrv.cc:237-256 | How many of the draws below the weight sum select an element, for every group: its weight, one less behind an element without weight, and one or none for an element without weight. |
| WeightedOrder.ProportionalIffZerosLast | sources/common/resolver/rascal_getsrv.cc:237-256 | Every element of a group is selected by exactly as many draws as its weight if and only if no element without weight stands before one with weight. |
| WeightedOrder.ZeroTakesTheDraw | sources/common/resolver/rascal_getsrv.cc:246-256 | Behind an address without weight, an address of weight one is selected by no draw. |
| WeightedOrder.OrderIsPermutation | sources/common/resolver/rascal_getsrv.cc:229-276 | For every list and every sequence of draws the sorted list holds exactly the same addresses. |
| WeightedOrder.OrderKeepsPriority | sources/common/resolver/rascal_getsrv.cc:229-276 | A list ordered by priority comes out ordered by priority, for every sequence of draws. |
| WeightedOrder.EveryArrangementPossible | sources/common/resolver/rascal_getsrv.cc:229-276 | With positive weights whose sum does not wrap, every arrangement that respects the priorities comes out for some sequence of draws. |
| AddressList.InsertNode | sources/common/resolver/rascal_getsrv.cc:355-363 | Relinks a new address node in front of the first one whose priority is not lower; all other nodes keep their places. |
| AddressList.SumGroup | sources/common/resolver/rascal_getsrv.cc:236-241 | The loop over the first priority group adds up its weights in 32 bits. |
| AddressList.FindSuitable | sources/common/resolver/rascal_getsrv.cc:246-256 | The pointer walk with its decreasing random rest stops at the element that the draw selects. |
| AddressList.TakeNext | sources/common/resolver/rascal_getsrv.cc:246-271 | Unlinks the selected node from the old list and leaves the others linked in order. |
| AddressList.SortNodes | sources/common/resolver/rascal_getsrv.cc:229-276 | The sort in place, through pointers to links: the same nodes, linked in exactly the order that the draws give. |
| GetSrv.Request.IsKnown | sources/common/resolver/rascal_getsrv.cc:125-132 | The scan of the record list tells whether the host is already being resolved. |
| GetSrv.Request.OnRecord | sources/common/resolver/rascal_getsrv.cc:97-144 | One SRV record, from its bytes: read through a cursor of its own, then linked in front when its host is known or its lookup could be scheduled; an unreadable one, an empty host and a refused node end the response. What is linked, field by field, says `Responses.ResponseIs`. |
| GetSrv.Request.TakeRecord | sources/common/resolver/rascal_getsrv.cc:117-140 | Behind the reading: the new list and the lookups are those of the state machine (`Responses.ResponseIs`). |
| GetSrv.Request.OnEvent | sources/common/resolver/rascal_getsrv.cc:146-189 | The response handler, from the bytes behind the header: questions are skipped, records are taken until one cannot be read, an empty host name or a refused node; without records it reports not found or unavailable and leaves the queue. |
| SrvAnswers.ReadSrv | sources/common/resolver/rascal_getsrv.cc:102-109 | Reads priority, weight, port and host name of an SRV record, or fails; the name may run to the end of the packet and through pointers. |
| SrvAnswers.TextReads | sources/common/resolver/rascal_getsrv.cc:108-113 | The host is the text in front of the first zero byte of the buffer. |
| SrvAnswers.RefusedNodeBreaks | sources/common/resolver/rascal_getsrv.cc:117-118 | A refused node ends the response; an empty host is noticed before. |
| SrvAnswers.AnswersAreSent | sources/common/resolver/rascal_getsrv.cc:155-178 | Of a well-built answer section exactly the SRV records sent are read, in order, with their numbers and hosts, plain or through pointers; other records are skipped. |
| SrvAnswers.ResponseSays | sources/common/resolver/rascal_getsrv.cc:146-178 | The same from the first byte of the packet: header, questions, records. |
| SrvAnswers.AnswersEndIfPointersDo | sources/common/resolver/rascal_getsrv.cc:155-178 | When no chain of bare pointers runs in a circle, every response is read to an end. |
| Responses.ResponseIs | sources/common/resolver/rascal_getsrv.cc:97-189 | After any response the accepted records are, in order, exactly the SRV answers in front of its end whose host is held already or whose lookup was scheduled, with the numbers of the answer and the first 63 bytes of its host; each new host is looked up under its full name; without records the user is told so, of an unavailable service if an empty host ended the response. |
| Responses.PacketIs | sources/common/resolver/rascal_getsrv.cc:97-189 | The same from the bytes of a well-built packet: the records sent are the answers. |
| GetSrv.Request.AddAddresses | sources/common/resolver/rascal_getsrv.cc:344-367 | Every resolved address whose node is given becomes a node with the priority, weight and port of the record, at its place by priority; the others are dropped (`Fanout.PairingsCount`, `Fanout.DeniedCount`). |
| GetSrv.Request.Pass | sources/common/resolver/rascal_getsrv.cc:336-373 | The pass over the record list in place: records of other hosts are kept, in reverse; those of the answered host turn into addresses, as far as nodes are given. |
| GetSrv.Request.FindHost | sources/common/resolver/rascal_getsrv.cc:323-334 | The search by id finds the first record with this id, or none. |
| GetSrv.Request.OnGetaddr | sources/common/resolver/rascal_getsrv.cc:316-398 | An answer for a listed request with such a record: addresses are handed out, and when no record is left the list is sorted and connecting starts; the new state is the one of the state machine. |
| GetSrv.Request.Sort | sources/common/resolver/rascal_getsrv.cc:229-276 | The address list of the request is relinked into the drawn order; the record list is untouched. |
| GetSrv.Request.TryNextServer | sources/common/resolver/rascal_getsrv.cc:279-314 | The recursion takes the step of the state machine: it consults the head address until a connection is scheduled or none is left, and then reports unavailability (`EveryRun.TryNextIs`); it ends because the list gets shorter. |
| GetSrv.Request.OnConnection | sources/common/resolver/rascal_getsrv.cc:192-223 | An event of an attempt: success is reported and ends the request, failure moves on, any other event is turned away. |
| Fanout.DistributeAddsPairings | sources/common/resolver/rascal_getsrv.cc:336-373 | What handing out an answer adds, with what it drops for want of memory, is exactly the pairings of the records of its host with its addresses, and goes in by priority. |
| Fanout.DistributeKeepsOthers | sources/common/resolver/rascal_getsrv.cc:336-343 | Handing out an answer keeps every record of another host. |
| Fanout.PairingsCount | sources/common/resolver/rascal_getsrv.cc:344-353 | Field by field: among the pairings a target with these numbers and this address stands as often as the records with these numbers have the address in the answer for their host. |
| Fanout.DeniedCount | sources/common/resolver/rascal_getsrv.cc:346-347 | Of one record exactly the addresses are dropped whose node is refused. |
| ServiceRuns.CollectKeeps | sources/common/resolver/rascal_getsrv.cc:97-144 | While the response is read, ids stay distinct, every lookup has its record and every host in the list a lookup, whatever the host names. |
| ServiceRuns.AnswerKeeps | sources/common/resolver/rascal_getsrv.cc:317-373 | An answer serves all records of its host and only those; what it adds and what it drops for want of memory are exactly their pairings; lookups and hosts left stay matched one to one. |
| ServiceRuns.TryNextKeeps | sources/common/resolver/rascal_getsrv.cc:279-314 | Failover either schedules one attempt or has consulted everything and made one report of unavailability. |
| ServiceRuns.StaysGood | sources/common/resolver/rascal_getsrv.cc:97-398 | Every state of every run whose lookups a record can tell apart is in one of the phases: resolving, connecting or done, with the facts of that phase. |
| EveryRun.RunIsStaged | sources/common/resolver/rascal_getsrv.cc:97-398 | Every state of every run, whatever the names, is resolving, connecting or done; consulted and remaining addresses are the sorted list, and a failure is told only when none remains. |
| EveryRun.StepStage | sources/common/resolver/rascal_getsrv.cc:192-223 | Every event keeps those phases; only an attempt that closes stalls a resolution, and a success is told exactly on a connect event that succeeds. |
| EveryRun.TryNextIs | sources/common/resolver/rascal_getsrv.cc:279-314 | Failover consults the addresses in order with the verdicts in order, up to and with the first whose connection is scheduled, and waits for it; a refused connection moves on; with none scheduled it has consulted all and reports unavailability. Nothing else changes. |
| EveryRun.AttemptsEndOnce | sources/common/resolver/rascal_getsrv.cc:192-223 | In every run only the connection scheduled last is waited for or stalls, and of all scheduled each has ended with one event but for the one that is waited for. |
| EveryRun.LastAnswerSorts | sources/common/resolver/rascal_getsrv.cc:373-388 | The answer that leaves no record sorts the list it leaves by the draws, and that is the order of consultation. |
| ServiceTheorems.AtMostOneReport | sources/common/resolver/rascal_getsrv.cc:182-187 | In every run, whatever the names and events, the user is told at most once, and exactly once when the request has left the queue. |
| ServiceTheorems.StalledIffClosed | sources/common/resolver/rascal_getsrv.cc:201-206 | In every run, a resolution is stalled exactly when an attempt ended with an event other than a connect event. |
| ServiceTheorems.ToldIffNoneClosed | sources/common/resolver/rascal_getsrv.cc:192-223 | Every run with nothing left to wait for has told the user if and only if no attempt ended with an event other than a connect event. |
| ServiceTheorems.ClosedAttemptStalls | sources/common/resolver/rascal_getsrv.cc:201-206 | A run with one record, one address and one attempt that ends with a close event: nothing is left to wait for, and the user was never told. |
| ServiceTheorems.StalledForever | sources/common/resolver/rascal_getsrv.cc:201-206 | In every run, a stalled resolution says and does nothing again; only lookups still outstanding are answered. |
| ServiceTheorems.AllFailedIsUnavailable | sources/common/resolver/rascal_getsrv.cc:279-314 | In every run in which every attempt fails with a connect event, the user gets exactly one report, of unavailability unless no record was accepted, after every address was consulted. |
| ServiceTheorems.OneLookupPerHost | sources/common/resolver/rascal_getsrv.cc:122-140 | While records are left, every host among them has exactly one outstanding lookup, no other host has any, and record ids are distinct. |
| ServiceTheorems.ConnectsAfterLastAnswer | sources/common/resolver/rascal_getsrv.cc:373-388 | Sorting, consulting and connecting have begun if and only if the response came and the last lookup was answered; the record list empties exactly then. |
| ServiceTheorems.NothingLostWhileResolving | sources/common/resolver/rascal_getsrv.cc:336-373 | Before the sort the records left are exactly the unanswered ones, and the addresses with those dropped for want of memory exactly the pairings answered so far, by priority. |
| ServiceTheorems.ConsultedInOrder | sources/common/resolver/rascal_getsrv.cc:279-314 | From the sort on: the list with what was dropped for want of memory is every pairing of a record with an answer, by priority; addresses are consulted once each in that order, and a connection is requested to exactly those the filter passed. |
| ServiceTheorems.EveryPairingCounted | sources/common/resolver/rascal_getsrv.cc:344-353 | Field by field, from the sort on: for all numbers and addresses, the list and what was dropped have the target as often as accepted records with these numbers have the address in their answers. |
| ServiceTheorems.AnswersAreRecorded | sources/common/resolver/rascal_getsrv.cc:317-353 | The answers behind those counts are the ones that came, each under the host of its lookup. |
| ServiceTheorems.NothingDropped | sources/common/resolver/rascal_getsrv.cc:346-347 | In every run in which every node asked for is given, no address is dropped. |
| LongNames.OnTimeIffUnambiguous | sources/common/resolver/rascal_getsrv.cc:122-140 | After any response, every continuation connects only when the last lookup was answered if and only if no two lookups are for names whose first 63 characters are all a record keeps and are the same. |
| LongNames.OnTimeIffClearNames | sources/common/resolver/rascal_getsrv.cc:122-140 | The same in terms of the response: if and only if each name looked up differs, in its first 63 characters, from the hosts of the records before it. |
| LongNames.ShortNamesAreOnTime | sources/common/resolver/resolver.h:220 | Host names of up to 63 characters always keep connecting behind the last answer. |
| LongNames.ConnectsTooEarly | sources/common/resolver/rascal_getsrv.cc:317-388 | From any state with two such lookups, the run that connects while one of them is outstanding. |
| LongNames.LongNameConnectsEarly | sources/common/resolver/rascal_getsrv.cc:123-132 | Two records of one host name of 64 characters or more: two lookups, and a connection after the first answer. |
| Lines.SplitLinesIsUnique | sources/common/datachain.cc:119-138 | There is one way to cut a stream into lines that end in a line feed and a rest without one. |
| Lines.SplitLinesIsStream | sources/common/datachain.cc:119-138 | The lines and the rest, put together, are the stream. |
| Lines.ReceivedIsHandedOut | sources/common/datachain.cc:140-176 | What a buffer receives of a line: untrimmed as much as fits; trimmed the longest piece of its first bytes that does not end in a carriage return or line feed; in both cases one byte less when all of the buffer is filled. |
| Lines.HandedOutIsUnique | sources/common/datachain.cc:140-176 | There is only one such piece. |
| DataChain.Chain.Append | sources/common/datachain.cc:38-67 | The bytes that memory allows are appended at the end of the queue, block after block; success means all of them. |
| DataChain.Chain.Peek | sources/common/datachain.cc:70-85 | Copies the first bytes of the queue, as many as asked for and there, across blocks, and changes nothing. |
| DataChain.Chain.Remove | sources/common/datachain.cc:88-109 | Drops that many bytes from the front, or all, and trims blocks that hold nothing. |
| DataChain.Chain.Extract | sources/common/datachain.cc:112-116 | Delivers the first bytes of the queue and drops exactly those. |
| DataChain.Chain.GetSize | sources/common/datachain.cc:189-198 | The number of bytes in the queue, in 32 bits. |
| DataChain.Chain.HasData | sources/common/datachain.cc:201-207 | True exactly when the queue is not empty. |
| DataChain.Chain.Gets | sources/common/datachain.cc:119-186 | Reading a line, for every chain, buffer size and flags: the first line with its line feed or no data; cut to the buffer, trimmed unless told not to, shortened when the terminator would not fit; the whole line leaves the queue unless peeked at or measured. |
| PacketChain.Append | sources/common/packetchain.cc:10-39 | Adds one packet, cut to 2048 bytes; no bytes add no packet; refused only when the allocator gives no block. |
| PacketChain.Peek | sources/common/packetchain.cc:42-57 | Copies from the first packet only. |
| PacketChain.Extract | sources/common/packetchain.cc:60-64 | A read takes the first packet, or as much of it as asked for, and never crosses into the next one. |
| ChainRuns.OneCall | sources/common/datachain.cc:38-186 | Each call on the block chain delivers and leaves what it would on a plain queue of bytes. |
| ChainRuns.StreamSession | sources/common/datachain.cc:38-186 | Any sequence of calls, with refused allocations, delivers what a plain queue of bytes delivers; what came out and what is left is what was there and what was put in. |
| ChainRuns.StreamConserved | sources/common/datachain.cc:38-186 | On a plain queue: the bytes delivered or dropped, in order, followed by what is left, are what was there followed by what was put in. |
| ChainRuns.DeliveredInOrder | sources/common/datachain.cc:70-186 | Every piece a call delivered is the stretch of the stream behind what came out before it: as much as asked for and there, or what a buffer receives of the next line. |
| ChainRuns.ReadLines | sources/common/datachain.cc:119-186 | Repeated untrimmed reads with enough room cut the stream into its lines and the unfinished rest. |
| ChainRuns.PacketSession | sources/common/packetchain.cc:10-64 | Any sequence of sends and block-sized reads: the packets received and those queued are those queued before and those accepted, in order; a send is refused only when the allocator gives nothing. |
| DnsWire.Reader.GetShort | sources/common/resolver/resolver.h:68-78 | Reads 16 bits in network order, or fails and moves nothing. |
| DnsWire.Reader.GetLong | sources/common/resolver/resolver.h:79-91 | Reads 32 bits in network order, or fails and moves nothing. |
| DnsWire.Writer.PutShort | sources/common/resolver/resolver.h:94-104 | Writes 16 bits in network order, or fails and writes nothing. |
| DnsWire.Header.Parse | sources/common/resolver/header.cc:120-154 | Parses the twelve header bytes into their fields, and fails exactly on fewer. |
| DnsWire.Header.Dump | sources/common/resolver/header.cc:157-172 | Writes the twelve header bytes, and fails exactly when they do not fit. |
| DnsWire.DecodeAfterEncode | sources/common/resolver/header.cc:120-172 | Parsing what was dumped, wherever it stands, restores every field (section 4.1.1 of RFC 1035). |
| DnsWire.EncodeAfterDecode | sources/common/resolver/header.cc:120-172 | Dumping what was parsed restores every 12-byte header. |
| DnsWire.HeaderLayout | sources/common/resolver/header.cc:157-172 | The twelve bytes of a header, bit field by bit field (section 4.1.1 of RFC 1035). |
| DnsNames.PutName | sources/common/resolver/header.cc:24-64 | Writes the wire form of a host name; fails exactly on an empty label or when it does not fit (section 3.1 of RFC 1035). |
| DnsNames.JoinedLabels | sources/common/resolver/header.cc:24-64 | The labels of a host name, with dots between them, are the name without the dot that may end it. |
| DnsNames.SkipName | sources/common/resolver/header.cc:67-97 | Skips labels up to the root or a pointer, clipped to the packet; the cursor and the size left always end where the packet ends. |
| DnsNames.SkipIsExact | sources/common/resolver/header.cc:67-97 | Skipping moves past exactly an encoded name, ended by the root or a pointer, wherever it stands. |
| DnsNames.SkipStops | sources/common/resolver/header.cc:67-97 | For arbitrary bytes: skipping stops behind a root or a pointer, or at the end of the packet. |
| DnsNames.SkipExactIffShort | sources/common/resolver/header.cc:67-97 | For labels of 1 to 255 bytes, skipping moves past exactly the name if and only if no label is longer than 63 bytes. |
| DnsNames.LongLabelTakenForPointer | sources/common/resolver/header.cc:24-97 | A label of 64 to 255 bytes is put with its length octet, which skipping takes for a pointer: it stops behind the second byte. |
| DnsNames.VeryLongLabelEndsName | sources/common/resolver/header.cc:24-97 | The length octet of a label of 256 bytes is 0: skipping stops in front of the label. |
| DnsDecompress.ReadingEndsIffPointersEnd | sources/common/resolver/header.cc:283-337 | Reading a name ends from every offset and into every buffer if and only if no chain of pointers pointing directly at pointers runs in a circle. |
| DnsDecompress.NameEndsIff | sources/common/resolver/header.cc:283-337 | Reading one name from an offset, into a buffer of any size, ends if and only if every chain of bare pointers met while there is room in the buffer ends. |
| DnsDecompress.NameEndIsDecidable | sources/common/resolver/header.cc:283-337 | Whether it ends shows within as many pointers as the packet has bytes, for each byte of room and once more. |
| DnsDecompress.EndIsDecidable | sources/common/resolver/header.cc:306-326 | Whether such a chain ends shows within as many hops as the packet has bytes. |
| DnsDecompress.BackwardPointersEnd | sources/common/resolver/header.cc:306-326 | When all pointers refer to earlier offsets, as in section 4.1.4 of RFC 1035, every chain ends. |
| DnsDecompress.SelfPointerLoops | sources/common/resolver/header.cc:306-326 | A pointer to itself is never done with, into any buffer. |
| DnsDecompress.PointerIsRead | sources/common/resolver/header.cc:306-326 | The bytes 192 + t / 256 and t % 256 are read as a pointer to offset t: followed there, or refused when the packet or the buffer ends before. |
| DnsDecompress.NameReadsAsJoined | sources/common/resolver/header.cc:283-337 | A well-formed name other than the root, plain or through pointers as the standard writes them, with labels free of dots and room to spare, is read as exactly its labels with dots between them. |
| DnsDecompress.NameIsCut | sources/common/resolver/header.cc:283-337 | Into a buffer of any size an uncompressed name is read as its labels with dots between them, cut to what fits with a terminator. |
| SrvAnswers.HostIsCut | sources/common/resolver/rascal_getsrv.cc:100-109 | An uncompressed host name of any length is read up to its 255th byte. |
| DnsDecompress.NameRoundTrip | sources/common/resolver/header.cc:24-337 | Reading what was put gives the name without the dot that may end it and stops at the terminator, in any buffer it fits, for labels below 192 bytes. |
| DnsDecompress.CopyLabel | sources/common/resolver/header.cc:289-305 | Copies one label as far as packet and buffer go, and a dot if there is room. |
| DnsDecompress.ReadName | sources/common/resolver/header.cc:283-337 | The recursive reader into a buffer: whenever the reading ends, it delivers the terminated text or the failure of the specified reading. |
| DnsAnswers.SkipEcho | sources/common/resolver/header.cc:175-191 | Skips the echoed questions and counts them down; stops where the packet does. |
| DnsAnswers.EchoIsExact | sources/common/resolver/header.cc:175-191 | Echoed questions are skipped to the last byte. |
| DnsAnswers.NoAddressesBehindCutQuestions | sources/common/resolver/header.cc:175-233 | There are addresses only in a response without error whose questions are all skipped. |
| DnsAnswers.GetAddrs | sources/common/resolver/header.cc:194-233 | For arbitrary bytes: collects the addresses of the readable records, in order, as many as the array takes, only without error and with answers; the cursor never leaves the packet. |
| DnsAnswers.RecordsAreSent | sources/common/resolver/header.cc:205-230 | The records of a well-built section, plain or compressed owner names, are read exactly as sent. |
| DnsAnswers.RecordReadIff | sources/common/resolver/header.cc:205-230 | For arbitrary bytes: a record is read if and only if its ten bytes and as much data as they tell stand in the packet behind a name that can be skipped. |
| DnsAnswers.AddressesAre | sources/common/resolver/header.cc:220-226 | The addresses are the data of exactly the records of type 1, class 1 and four bytes, each once and in order. |
| DnsAnswers.AddressesAreSent | sources/common/resolver/header.cc:194-233 | For every response without error the result is exactly the A records of class IN with four bytes, in order, cut to the array. |
| DnsAnswers.ResponseAddresses | sources/common/resolver/header.cc:120-233 | The same from the first byte of the packet: its header is parsed and the addresses behind its questions are collected, whatever sections follow. |
| DnsAnswers.DumpQuery | sources/common/resolver/rascal_getaddr.cc:60-85 | Builds the query packet; fails exactly on a malformed name or a full buffer. |
| DnsAnswers.QueryLayout | sources/common/resolver/rascal_getaddr.cc:60-85 | The bytes of a query: recursion desired, one question, type 1 and class 1. |
| DnsAnswers.OneQuestionEchoed | sources/common/resolver/header.cc:67-191 | Skipping the one question of a query consumes it to the last byte if and only if no label is longer than 63 bytes. |
| DnsAnswers.QueryRoundTrip | sources/common/resolver/rascal_getaddr.cc:60-85 | Parsing the packet that a lookup dumps restores its header (`sources/common/resolver/header.cc:120-172`), and skipping its echo (`header.cc:24-97`, `header.cc:175-191`) consumes it to the last byte if and only if no label is longer than 63 bytes. |
| PagedHeap.NeverHandedOutTwice | sources/common/util/memory.cc:29-113 | On every run an object handed out is not live at that moment. |
| PagedHeap.LiveObjectsDisjoint | sources/common/util/memory.h:65 | On every run any two live objects, back pointers included, occupy disjoint byte ranges. |
| PagedHeap.LiveObjectInside | sources/common/util/memory.h:65 | On every run a live object with its back pointer lies in the memory given for its page, room for so many items of this size. |
| PagedHeap.RunIsGood | sources/common/util/memory.cc:29-113 | On every run the free slots of a page are distinct, and exactly the slots without a live object. |
| PagedHeap.ReleaseIsPush | sources/common/util/memory.cc:52-64 | The division of the address by the item size recovers the slot of every live object, and its page. |
| PagedHeap.LastReleasedIsNext | sources/common/util/memory.cc:52-64 | What was released last is handed out next, when no page in front has room. |
| PagedHeap.PagesBounded | sources/common/util/memory.cc:29-49 | In every run all pages but one could be filled by the objects live at the peak. |
| PagedHeap.PeakIsReached | sources/common/util/memory.cc:29-49 | The peak is the number of live objects of some earlier state. |
| PagedHeap.SucceedsIff | sources/common/util/memory.cc:29-113 | An allocation succeeds if and only if the first page with a free slot is for this size, or there is none and the system gives memory. |
| PagedHeap.OneSizeNeverRefused | sources/common/util/memory.cc:101-113 | While all allocations ask for one size, only the refusal of the system makes one fail. |
| PagedHeap.OtherSizeRefused | sources/common/util/memory.cc:101-113 | A reached state in which a request of another size fails although memory is at hand. |
| PageMan.PageHead.Fill | sources/common/util/memory.cc:82-86 | Lists every slot of a new page as free and points every item back at the page. |
| PageMan.PageHead.Alloc | sources/common/util/memory.cc:101-113 | Pops the last free slot, only for the page's own size. |
| PageMan.PageManager.FindPage | sources/common/util/memory.cc:35-46 | The walk through the chain stops at the first page with a free slot, or behind the last one. |
| PageMan.PageManager.Pmalloc | sources/common/util/memory.cc:29-49 | The allocation in place: new state and result are those of the specification. |
| PageMan.PageManager.Pmfree | sources/common/util/memory.cc:52-64 | The release in place: back pointer, division and push give the state of the specification. |
| HandleTable.AddAgrees | sources/common/util/stock.h:97-129 | `add` returns a non-negative handle that is not in the map and puts the object under it, on up to 65536 slots; it fails only for want of memory and then changes nothing. |
| HandleTable.GetAgrees | sources/common/util/stock.h:132-143 | `get` agrees with the map if and only if it is not asked for -1 where -1 is found. |
| HandleTable.RemoveAgrees | sources/common/util/stock.h:154-166 | `remove` succeeds exactly on handles of the map, and takes out just this one, if and only if it is not asked for -1 where -1 is found. |
| HandleTable.RemovedSlotIsNext | sources/common/util/stock.h:154-166 | The slot of a removed handle is handed out next, under the next serial number. |
| HandleTable.NewPageFromTheEnd | sources/common/util/stock.h:101-129 | A new page is handed out from its last slot on. |
| HandleTable.SizeAgrees | sources/common/util/stock.h:90-94 | `size` is the number of handles in the map. |
| HandleTable.RunIsGood | sources/common/util/stock.h:97-166 | On every run on up to 65536 slots that does not remove -1 where it is found, the free stack is exactly the slots with id -1, without repetition. |
| HandleTable.SameHandleFarApart | sources/common/util/stock.h:97-129 | Two adds that return the same handle are at least 32768 adds apart. |
| HandleTable.StaleHandleFails | sources/common/util/stock.h:132-166 | A removed handle is refused until 32768 adds after the one that made it. |
| HandleTable.LooksUpOwnSlotIff | sources/common/util/stock.h:120-140 | The handle of a slot leads back to this slot if and only if the slot number is below 65536. |
| HandleTable.HandleLeadsElsewhere | sources/common/util/stock.h:97-143 | For every page size, a run of adds alone whose last handle is not found, or leads to another object. |
| HandleTable.FailureFoundIff | sources/common/util/stock.h:132-166 | The failure result -1 passes for a valid handle if and only if slot 65535 exists and is free. |
| HandleTable.FailureRemovedTwice | sources/common/util/stock.h:97-166 | For every page size, a run that fills 65536 slots, removes the handle of slot 65535 and then -1: the slot is free twice, the next two adds share it, and the handle of the first is lost. |
| Stock.Stock.Add | sources/common/util/stock.h:97-129 | The arrays after `add`, reallocation included and on any number of slots, stand for the table of the specification. |
| Stock.Stock.Get | sources/common/util/stock.h:132-143 | On any number of slots finds what the specification finds; where that agrees with the map, exactly its handles and their objects. |
| Stock.Stock.Remove | sources/common/util/stock.h:154-166 | The arrays after `remove` stand for the table of the specification. |
| Stock.NotAllFree | sources/common/util/stock.h:163-164 | While the free stack is sound, a handle that is found leaves room on it. |
| Stock.Stock.Size | sources/common/util/stock.h:90-94 | The number of handles in the map. |
| Lifetimes.CountIsHolders | sources/common/object.cc:38-66 | On every run the reference count is the number of holders, plus one until the cancellation is through. |
| Lifetimes.DestroyedIff | sources/common/object.cc:48-66 | On every run an object is destroyed exactly when its cancellation is through and nobody holds it. |
| Lifetimes.HeldIsAlive | sources/common/object.cc:107-125 | On every run a held object is alive and in the table; a cancelled one, and a destroyed one, is out of the queue. |
| Lifetimes.NeverRevived | sources/common/object.cc:32-66 | What is destroyed stays destroyed. |
| Lifetimes.LivingIdsAgreeIff | sources/common/resolver/request.cc:31-35 | The packet numbers of two living requests agree if and only if a multiple of 65535 creations lies between them. |
| Lifetimes.PickFindsOldest | sources/common/resolver/request.cc:159-169 | On every run a response reaches, and holds, the oldest listed request with its number, which is not cancelled, and none if there is none. |
| Lifetimes.OutlivesCancelIff | sources/common/resolver/request.cc:172-178 | A held object outlives a cancellation if and only if its count is above one; as long as no cancellation is through, it is. |
| Lifetimes.CancelledTwice | sources/common/resolver/request.cc:122-178 | A run in which two responses to one request are picked and both cancel: the second holder is left with a destroyed object. |
| RequestQueue.Queue.TakeId | sources/common/resolver/request.cc:31-35 | The next packet number, 0 skipped. |
| RequestQueue.Queue.Enlist | sources/common/resolver/request.cc:19-44 | A new request gets the next number, the last place in the queue and one reference. |
| RequestQueue.Queue.Relink | sources/common/resolver/request.cc:54-73 | The one-pass relinking through a pointer to the last link drops exactly this request and keeps the order of the others. |
| RequestQueue.Queue.Unlist | sources/common/resolver/request.cc:54-73 | A listed request leaves the queue, alone; an unlisted one changes nothing. |
| RequestQueue.Queue.Pick | sources/common/resolver/request.cc:159-169 | The first request in the queue with this packet number, or none. |
| RequestQueue.Queue.Cancel | sources/common/resolver/request.cc:172-178 | Out of the queue, marked, one reference less; tells whether it is to be deleted. |
| WriterProtocol.ExclusiveKept | sources/nt/owriter.cc:14-49 | Every step of every thread keeps the mutex exclusive and the block in flight in exactly one place. |
| WriterRuns.OneBlockInFlight | sources/nt/owriter.cc:14-49 | Over all interleavings at most one block is in flight, and the bytes sent, in flight and queued are everything appended, in order. |
| WriterRuns.SentIsWritten | sources/nt/connection.cc:51-62 | Over all interleavings the bytes sent, in flight and queued are exactly what the callers wrote, write after write, as far as memory went. |
| WriterRuns.BlockTakesAll | sources/nt/owriter.cc:30-38 | A block takes the first 2048 bytes that wait, or all of them. |
| WriterRuns.NoLostWakeup | sources/nt/connection.cc:51-100 | When no thread is in a call, bytes wait without a write under way if and only if memory ran out behind them, for an append or for a writer, while none was under way, and nothing was taken out since. |
| WriterRuns.StarvingIff | sources/nt/connection.cc:51-62 | In every state, what starves is exactly what such an append, or such a refusal of a writer, left behind. |
| WriterRuns.FailedAppendStrands | sources/nt/connection.cc:51-62 | The five-step run in which a failed append leaves a byte that nobody is going to write. |
| WriterRuns.RefusedWriterStrands | sources/nt/connection_st.cc:40-43 | The six-step run in which the append finds memory and the writer does not: the byte waits and nobody is going to write it. |
| WriterRuns.RefusedSuccessorStrands | sources/nt/connection.cc:92-100 | A run in which a block is written, and the writer for the byte that came meanwhile is refused: it waits. |
| WriterRuns.NeverStarved | sources/nt/connection.cc:51-100 | As long as appends and writers find memory, nothing starves. |
| WriterRuns.NoDeadlock | sources/nt/owriter.cc:14-49 | While some call is under way, some thread in a call can take its next step. |
| InetText.PrintedIsReadBackIff | sources/common/rascal_ntoa.cc:41-57 | What is printed into a buffer is read back as the same address, with a full mask, if and only if the buffer took it all with its terminator; 16 bytes always do. |
| InetText.AddressRoundTrip | sources/common/rascal_aton.cc:28-83 | A printed address is read back, with a full mask. |
| InetText.RangeRoundTrip | sources/common/rascal_aton.cc:76-83 | With `/n` behind an address the mask is the one of length n; text behind the length is ignored unless it has a dot in it. |
| InetText.PrefixMaskIsLeadingOnes | sources/common/rascal_aton.cc:79-81 | The mask of length n is exactly n leading one bits. |
| InetText.MaskRoundTrip | sources/common/rascal_aton.cc:85-100 | A mask of two to four printed octets is read back; octets not given are 255. |
| InetText.AcceptedIffSpelled | sources/common/rascal_aton.cc:28-72 | A text without a slash is accepted if and only if it is four octets with dots between them, where one more dot may follow; it stands for just these octets. |
| InetPatterns.AcceptedIff | sources/common/rascal_aton.cc:28-100 | Every text: accepted if and only if it is four octets, possibly with one more dot, or one to four octets, a slash, and a mask length up to 32 or the octets of a mask; and what address and mask it then stands for. |
| InetPatterns.LongMaskIsRefused | sources/common/rascal_aton.cc:76-78 | A mask length above 32 is refused. |
| InetPatterns.NumberIs | sources/common/rascal_aton.cc:13-25 | Digits are read as their decimal value modulo 2^32. |
| InetPatterns.DecimalIs | sources/common/rascal_ntoa.cc:10-38 | An octet is printed in one to three decimal digits. |
| InetPatterns.PrefixMaskIs | sources/common/rascal_aton.cc:79-81 | As a number of 32 bits the mask of length n is 2^32 less 2^(32 - n). |
| InetCode.GetSeg | sources/common/rascal_aton.cc:13-25 | Reads the digits in front as a number modulo 2^32. |
| InetCode.ParseV4 | sources/common/rascal_aton.cc:28-100 | The parser in place, with its moving pointer: accepts and stores what the specification says. |
| InetCode.Aton | sources/common/rascal_aton.cc:103-122 | Address and mask have length 4 when the text is understood, and 0 when it is not. |
| InetCode.SetLength | sources/common/rascal_aton.cc:79-81 | Setting the mask bits one by one gives the mask of that length. |
| InetCode.Ntoa | sources/common/rascal_ntoa.cc:41-57 | The buffer holds the printed address as far as it goes, terminated within its size; bytes behind the size are untouched. |

## Left out

- Sockets, `select`, completion ports, thread creation, DLL start-up: calls without visible meaning. The
  BSD connection (`send`, `recv`, `errno`) is not part of this model.
- `header::get_hosts` and `gethost`: its cursor does not follow the record layout
  (`sources/common/resolver/header.cc:249-276`), so it makes no clean promise on several records.
- The monitor thread, time stamps, options and resending: a request gets one SRV response, and each
  lookup one answer. A cancellation by the monitor is one more canceller in `Lifetimes`.
- The random source: `sources/common/util/random.cc:19-27` is asked for `sum - 1`; the model lets it
  return any value below the sum. One build never returns the largest value and divides by zero for 0.
- `sources/common/resolver/rascal_getsrv.cc:340` reads the host of a record that the same loop may
  have deleted; the model takes the host before the loop.
- Deletion and reuse of nodes, blocks and requests as memory; `delete req` and `delete this` outside the
  counter (`sources/common/resolver/rascal_getsrv.cc:214`, `sources/common/resolver/rascal_getaddr.cc:21`).
- `sources/common/datachain.cc:163` looks at the byte behind the last one of a block, which is the first
  byte of `next`; the model looks only where there is a byte. It does not change the result on
  little-endian machines, where aligned addresses never end in 0x0A.
- DataChain.Chain.GetSize: the only place where byte counts wrap at 2^32; elsewhere they are unbounded.
- A write that completes in part, and a failing `WriteFile` that still writes: a completion transfers its
  whole block, or fails.
- GetSrv.Request.OnRecord: takes as a requirement that the reading of its host name ends; the source does
  not end on the others (`DnsDecompress.NameEndsIff`).
- GetSrv.Request.OnEvent: takes the same for each host name on the way, which holds when no chain of bare
  pointers runs in a circle (`SrvAnswers.AnswersEndIfPointersDo`).
- DnsDecompress.ReadName: takes a reading that ends as a requirement, because the source does not end on the
  others; buffers hold at least one byte for a text to be delivered; the test of the byte in front of the
  buffer (`sources/common/resolver/header.cc:329`) is made only when something was written.
- DnsDecompress.NameReadsAsJoined: needs one byte more than the text when pointers are followed, as the
  reader refuses a pointer into a full buffer.
- DnsAnswers.GetAddrs: keeps the four octets of an address and its length; the other twelve octets of the
  field are not modelled.
- PagedHeap.NeverHandedOutTwice: the system gives memory that does not overlap what it gave before; sizes
  do not overflow the address type; a page has at least one slot.
- Stock.Stock.Add: when only one of the two reallocations fails the source keeps a dangling array, which
  the model does not have. Serial numbers start at 0, as in the one table the library has, which is static
  (`sources/common/object.cc:17`); the constructor itself leaves `idx_seed` unset.
- Stock.Stock.Remove: takes room on the free stack as a requirement, which `Stock.NotAllFree` gives on
  every sound table; past it the source writes behind its array.
- Lifetimes.CountIsHolders: looking up and counting is one step, as are the last release and the deletion.
- InetText.AcceptedIffSpelled: text is what stands in front of the terminator.
- The names of the octets in `sources/common/rascal_ntoa.cc:10-38` are computed, not listed.
- Wall-clock arithmetic, semaphores, error texts, logging, `util/list.h`, samples and build scripts.
