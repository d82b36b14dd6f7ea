# Session Router: verified models

Dafny models of the parts of Session Router whose correctness is hardest to see, with proofs over
every input, every run or every reachable state. `dafny verify dfyconfig.toml` checks the project.

- **DNS codec** (`WireBytes`, `Bits`, `DnsNames`, `DnsMessage`, `DnsRoundTrip`, `DnsTruncation`, `DnsReplies`,
  `DnsWriter`, `DnsRecords`, `RawDns`, `RawCodec`). Names are written with suffix compression through one table shared
  by the whole message. The specification is a pure encoder and an independent reader of RFC 1035
  section 4.1; `DnsWriter` is the imperative encoder over a bounded buffer, proved equal to the pure one.
  `RawDns` and `RawCodec` are the parser and printer of raw messages.
- **Node database** (`RouterIds`, `Sequences`, `RcIndex`, `Sampling`, `SampleCounting`, `Closest`, `RidConsensus`,
  `FetchChain`, `ZeroRtt`). Bucket hashes kept beside the contact store, reservoir sampling and its exact
  odds, the k closest relays, the majority rule for router identifiers, the chain of fetch rounds, and the
  one-use tickets mirrored to disk.
- **Tun addresses** (`IpNets`, `PrivateNets`, `AddressMaps`, `KeyAddresses`, `ExpiredCache`, `Tun`). The
  search for a free private network, the two-way address maps, allocation, and the cache of expired remotes.
- **Client contacts** (`ContactStore`), **reachability tests** (`Reachability`) and the **TCP tunnel**
  (`TcpTunnel`).

State that the program updates in place is a class whose methods are proved against functions of the old
state; the theorems are lemmas about those functions. Clocks, random draws, network answers, hashes and
signature checks are parameters. Asynchronous callbacks are events of a state machine.

Where a property does not hold of the code, the model keeps the code's behaviour, a lemma gives a concrete
case, and another says exactly when the property holds:

- Truncated replies are right only without authority records, whose count is not reset, and with two-byte
  header patches (`TruncatedReplyReads`, `TruncatedBodyReads`, `RawTruncatedHeader`).
- Raw messages are printed back byte for byte only if they are whole and their question labels are of the
  right kind (`ParsedByteExact`); the parser ignores a question that fails to read.
- Start-of-authority data is sized wrongly when a name is the root (`SoaReads`).
- A remote mapped again while it is remembered keeps its old place in the expired list and can lose the
  address it is using (`InUseKept`, `InUseLost`), although src/handlers/tun.hpp:87-91 says that the
  association persists until unmapped.
- Two saves of tickets at once may leave a used ticket on disk (`OverlappingSavesDisagree`, `StepAgrees`,
  `RunAgrees`), and a restart before a save gives a ticket out twice (`RestartUnsavedGivesTwice`,
  `StepConserves`).
- With our own address past the last one of its range, addresses outside the range are handed out
  (`InRange`); the configuration refuses the IPv4 address for which that could be so
  (src/config/config.cpp:617-622).

A compression pointer carries its offset exactly when that is below 2^14 (`PointerCarriesOffset`). The round
trip is proved up to that size; `FarNameMisread` is a longer message, as only the TCP limit allows, that is
read back as another. Purging is invisible to submissions because the handler of publish requests refuses
old ones (`PurgingUnanswered`); `AnswerDiffers` says exactly what put_cc would do without that guard.

Where code and comments disagree the model follows the code: the private IPv4 search stops at /18 blocks
while its comment says /20 (src/address/ip_range.cpp:166-172), and the comment on the random choice of a
relay to test says that it skips ourselves, which it does not (src/consensus/reachability_testing.cpp:196-227).

## Model

| member | source | states |
|---|---|---|
| `WireBytes.U16RoundTrip` | src/dns/encode.hpp:49-83 | A 16-bit integer written most significant byte first, anywhere in a buffer, is read back as itself |
| `WireBytes.U32RoundTrip` | src/dns/encode.hpp:49-83 | The same for 32 bits |
| `DnsNames.SplitJoins` | src/dns/encode.cpp:130-168 | Cutting a name at its dots loses nothing: the labels joined with dots are the name |
| `DnsNames.PointerCarriesOffset` | src/dns/encode.cpp:139-150 | The two pointer bytes give back the recorded offset if and only if it is below 2^14 |
| `DnsNames.SuffixReads` | src/dns/encode.cpp:130-177 | Every suffix written, as labels or as a pointer into a table that holds, is read by the RFC 1035 section 4.1.4 reader as its labels; the reader only follows pointers to strictly smaller offsets |
| `DnsNames.NameReads` | src/dns/encode.cpp:87-178 | A compressed name, written after any message whose suffix table holds, decompresses to exactly the labels of the original name and ends where the writer stopped |
| `DnsNames.NameKeepsTable` | src/dns/encode.cpp:87-178 | After a name is written below 2^14, every entry of the suffix table, old and new, still decodes to its suffix |
| `DnsNames.WellFormedWritten` | src/dns/encode.cpp:130-168 | The writer rejects no well-formed name, whatever the table |
| `DnsWriter.Writer.EncodeName` | src/dns/encode.cpp:87-178 | The loop over labels writes exactly the wire form of the name or fails exactly when it is malformed or does not fit; the running offset equals the bytes written and the table gains exactly the new suffixes |
| `DnsWriter.Writer.EncodeQuestion` | src/dns/question.cpp:21-25 | Buffer, offset and table after a question are those of the question appended to the draft, or the call fails |
| `DnsWriter.Writer.EncodeRecord` | src/dns/rr.cpp:43-59 | A record with its length filled in afterwards leaves the buffer, offset and table of the record appended with its true data length, or fails |
| `DnsWriter.Writer.EncodeData` | src/dns/rr.cpp:78-84 | Record data of every kind (bytes, target name, service, option) is written as specified, names in it compressed and entered in the table |
| `DnsWriter.Writer.EncodeRecords` | src/dns/message.cpp:70-80 | A section is written record by record, stopping at the first that does not fit |
| `DnsWriter.TruncateReply` | src/dns/message.cpp:81-111 | The rollback leaves the opening of the message with patched header fields, plus the option record when it fits |
| `DnsWriter.EncodeReply` | src/dns/message.cpp:34-118 | The imperative encoder over a bounded buffer computes exactly the message function for every message and either size limit |
| `DnsRoundTrip.PutRecordReads` | src/dns/rr.cpp:43-59 | A record appended to a draft whose table holds is read back as itself, with the next record starting where it ends, and the table still holds |
| `DnsRoundTrip.PutRecordsRead` | src/dns/message.cpp:70-80 | The same for a whole section |
| `DnsRoundTrip.EncodedMessageReads` | src/dns/message.cpp:34-118 | Every well-formed message that fits its limit and 2^14 bytes is read back, by an independent reader of RFC 1035 sections 4.1.1 to 4.1.4, as exactly its identifier, reply flags, question and records in all sections; WholeReplySeen says what those flags and the option record are |
| `DnsRoundTrip.FarNameMisread` | src/dns/encode.cpp:139-150 | The 14-bit bound is real: a well-formed message of 2^14 + 15 bytes is encoded in full and read back as another, the target of its last record having become the root |
| `DnsTruncation.EncodeWithinLimit` | src/dns/message.cpp:34-118 | Nothing encoded is longer than the chosen limit or shorter than a header |
| `DnsTruncation.WellFormedMessagePut` | src/dns/message.cpp:34-80 | A well-formed message is never rejected by the untruncated encoding |
| `DnsTruncation.TruncatedBodyReads` | src/dns/message.cpp:81-111 | After the rollback the option record reads as itself and nothing refers to discarded bytes; the question reads as itself if and only if the patches are two bytes wide, or the option count was not reset, or there is no question, or it asks for the root and a one-byte type |
| `DnsTruncation.TruncatedReplyReads` | src/dns/message.cpp:81-111 | A truncated reply reads as the truncated message if and only if the header patches are two bytes wide and the message has no authority records (modulo 2^16): the authority count is not reset |
| `DnsTruncation.NarrowAuthorityCount` | src/dns/message.cpp:81-111 | With two-byte patches the truncated header still announces the discarded authority records |
| `DnsReplies.WholeReplySeen` | src/dns/message.cpp:34-80 | A receiver of a reply sent whole reads the identifier of the query, its flags bit by bit with bit 15 (reply) set and bit 5 (authenticated data) clear, and the option record if there is one: type 41, the payload size, the flags, and the cookie as option 10 with its length |
| `DnsReplies.TruncatedReplySeen` | src/dns/message.cpp:81-111 | A receiver of a truncated reply, patched in two bytes and without authority records, reads the same flags with bit 9 (truncation) set as well, no answers or authorities, and the same option record if and only if it fits |
| `DnsRecords.TxtData` | src/dns/rr.cpp:100-118 | Text of any length becomes character strings that read back and join to the text, all but the last of 255 bytes, the last not empty unless it is the only one, with the exact total size |
| `DnsRecords.RoomExact` | src/dns/rr.cpp:120-153 | The space set aside for a name is never too small, and exact if and only if the name is not the root |
| `DnsRecords.SoaReads` | src/dns/rr.cpp:120-153 | Start-of-authority data reads back as its two names and five integers, with nothing left over, if and only if neither name is the root |
| `RawCodec.ExtractName` | src/dns/encode.cpp:17-51 | The reading loop gives the dotted text of the labels and the rest, or leaves its input alone |
| `RawCodec.ExtractNameData` | src/dns/encode.cpp:53-85 | The scanning loop gives exactly the bytes the name occupies, pointer included |
| `RawCodec.ExtractQuestion` | src/dns/question.cpp:27-47 | A question is taken, or what was read before the failure is kept and the cursor left where the original leaves it |
| `RawCodec.ParseMessage` | src/dns/message.cpp:389-443 | The parsing loops compute the parse function for every byte string |
| `RawCodec.ParseAcceptsWhole` | src/dns/message.cpp:389-443 | On messages whose questions all read and which have no trailing bytes, the parser agrees with a strict reader |
| `RawCodec.WriteRR` | src/dns/rr.cpp:200-217 | A raw record is written whole if it fits, and otherwise not at all |
| `RawCodec.EncodeRaw` | src/dns/message.cpp:476-581 | The imperative printer computes the printing function for every message and limit |
| `RawDns.TakeRRExact` | src/dns/message.cpp:411-439 | Printing a parsed record and what follows it gives the bytes it was parsed from |
| `RawDns.NamePrints` | src/dns/encode.cpp:17-51 | Reading labels to text and printing the text gives the same bytes if and only if every label has at most 63 bytes and no dot after its first byte and the last is not a lone dot; otherwise the print is never longer |
| `RawDns.RawByteExact` | src/dns/message.cpp:476-581 | For every whole message of at most 65535 bytes, printing at full size what was parsed gives back the same bytes if and only if its question names are reprintable |
| `RawCodec.ParsedByteExact` | src/dns/message.cpp:389-443 | The same for every message the parser accepts: it is printed back byte for byte if and only if it is whole, with every question read and nothing after the records, and its question names are reprintable |
| `RawDns.NoQuestionsShorter` | src/dns/message.cpp:476-581 | When the printer gives up on the questions the result differs from the input |
| `RawDns.DottedLabelChanged` | src/dns/message.cpp:476-581 | A concrete message with a dot inside a question label is not printed back |
| `RawDns.RawTruncatedHeader` | src/dns/message.cpp:545-575 | The truncated raw header has the truncation flag, the right question count, no answers or authorities and the right option count if and only if the patches are two bytes wide |
| `RawDns.RawOptionSame` | src/dns/rr.cpp:166-198 | The option record of raw messages has the bytes of the one in encoded messages |
| `RcIndex.RcStore.UpdateRcBuckets` | src/nodedb.cpp:123-141 | Taking out the recorded hash and putting in the new one turns the index of the old contents into the index of the new contents: each of the 128 bucket hashes is the XOR over the stored contacts of that bucket |
| `RcIndex.RcStore.PutRc` | src/nodedb.cpp:1202-1252 | The store becomes the newest-wins store (PutReplaces, HeldIsNewest), the index stays exact also when the index update is skipped, and the stored and gossip answers hold exactly in the stated cases |
| `RcIndex.PutReplaces` | src/nodedb.cpp:1202-1252 | After any load, puts and removals, a put leaves the held contact if the new one is not at least 60 seconds newer and replaces it otherwise, and touches no other |
| `RcIndex.StampNeverBack` | src/nodedb.cpp:1162-1303 | Over any puts and removals that spare a relay its held timestamp never goes back |
| `RcIndex.HeldIsNewest` | src/nodedb.cpp:1162-1303 | So every contact ever put is older, or less than 60 seconds newer, than what is held of a relay not removed since |
| `RcIndex.RcStore.RemoveRcsIf` | src/nodedb.cpp:1282-1303 | Exactly the contacts that satisfy the predicate go, they are the ones reported, and the index stays exact |
| `RcIndex.RcStore.Load` | src/nodedb.cpp:1162-1166 | Indexing after loading gives the index of the loaded contacts |
| `RcIndex.Replay` | src/nodedb.cpp:1162-1303 | After any load and any sequence of puts and removals the store holds what they amount to and its index is exact |
| `RcIndex.Rehash` | src/nodedb.cpp:110-141 | XOR with the recorded hash removes one entry from the XOR of any map, XOR with a new one adds it |
| `RcIndex.SameContentsSameBuckets` | src/nodedb.cpp:110-141 | Two valid stores that hold the same contacts announce the same 128 bucket hashes, whatever was loaded, put and removed on the way |
| `RcIndex.OneChangeShows` | src/nodedb.cpp:110-141 | Two stores that differ in one contact have equal hashes for its bucket if and only if the two contact hashes are equal |
| `RcIndex.MundaneValue` | src/nodedb.cpp:1202-1252 | An update that leaves the content hash of a stored contact alone changes no bucket, so skipping the index is safe |
| `Sampling.FillReservoir` | src/nodedb.cpp:41-59 | The loop over contacts is reservoir sampling of the admissible ones, for every sequence of draws |
| `Sampling.SampleRcs` | src/nodedb.cpp:30-65 | For every sequence of draws and swaps the result has exactly min(n, admissible) distinct contacts, none expired after 30 days, unwanted, blacklisted (for a client) or our own (for a relay), and is a permutation of the reservoir |
| `Sampling.ReservoirDistinct` | src/nodedb.cpp:41-59 | No contact is in the reservoir twice and all come from the input |
| `SampleCounting.KeptEqually` | src/nodedb.cpp:55-58 | Over all draw sequences for m admissible contacts, each contact is kept in exactly n/m of them |
| `SampleCounting.DrawSpaceCard` | src/nodedb.cpp:55-58 | The number of draw sequences is multiplied by m for the m-th contact |
| `Closest.MetricIsOrder` | src/nodedb.cpp:1326-1348 | The distance metric, with ties broken by the identifier, is a strict total order |
| `Closest.CondenseBit` | src/nodedb.cpp:1326-1335 | Each bit of the condensed key is the parity of the four bits at its place in the four quarters of the key |
| `Closest.NearerIsCloser` | src/nodedb.cpp:1337-1348 | The metric puts one relay before another if and only if, at the highest bit in which their condensed keys differ, the first agrees with the target, or the condensed keys are the same and the first has the smaller identifier |
| `Closest.ExactMatchNearest` | src/nodedb.cpp:1337-1348 | A relay whose condensed key is that of the target comes before every relay whose is not |
| `Closest.PartialSort` | src/nodedb.cpp:1360-1361 | The front of the array holds its k smallest in order, the elements being unchanged |
| `Closest.FindManyClosestTo` | src/nodedb.cpp:1351-1368 | The result is the min(k, registered) closest relays in increasing distance, and nothing for k not positive; every registered relay that agrees with the target at the highest bit in which it differs from a returned one is returned before that one |
| `Closest.SmallestUnique` | src/nodedb.cpp:1351-1368 | That result is unique, so it does not depend on the order in which the set is listed |
| `Closest.OneRelayMore` | src/nodedb.cpp:1351-1368 | Registering one relay brings in no other relay and displaces at most one; if it is not itself among the k, nothing changes |
| `RidConsensus.CountAgreement` | src/nodedb.cpp:660-681 | The counting loop decides exactly whether a strict majority of the asked sources, one of them inbound, affirms an identifier |
| `RidConsensus.ComputeAccepted` | src/nodedb.cpp:649-685 | The nested loops accept exactly those identifiers |
| `RidConsensus.RidStore.HandleFetchedRouterIds` | src/nodedb.cpp:633-704 | The known set becomes the accepted set, and a round that accepts nothing is inconclusive and leaves it unchanged |
| `RidConsensus.AcceptedShareSource` | src/nodedb.cpp:633-704 | Any two accepted identifiers were affirmed together by one source |
| `RidConsensus.MinorityPowerless` | src/nodedb.cpp:633-704 | What only half of the sources or fewer affirm is never accepted |
| `RidConsensus.AllInboundCostsNothing` | src/nodedb.cpp:633-704 | When all sources are inbound the inbound clause is implied by the majority |
| `RidConsensus.MajorityDecides` | src/nodedb.cpp:633-704 | If a majority with an inbound member gives the same list, exactly that list is accepted |
| `FetchChain.SelectSources` | src/nodedb.cpp:519-567 | The inbound sources are the first five distinct ends of inbound paths, and the sources the first five of inbound and then outbound paths; none at all without an inbound one |
| `FetchChain.ChosenEnds` | src/nodedb.cpp:519-567 | The two selection loops together choose exactly the path ends before which fewer than five distinct ones come |
| `FetchChain.FetchOnce` | src/nodedb.cpp:511-575 | A fetch stops for good when the router is stopped, sets the timer again when there is no inbound source, and otherwise starts a round with the sources selected |
| `FetchChain.FewSourcesMeansAll` | src/nodedb.cpp:519-567 | When fewer than that number were chosen every path end was taken |
| `FetchChain.RunKeepsInv` | src/nodedb.cpp:511-631 | The invariant on timers, rounds and pending requests holds after every run of timer, callback and stop events |
| `FetchChain.SingleChain` | src/nodedb.cpp:511-631 | After every run, timers plus rounds in flight are exactly one until a call finds the router stopped; every round begun is in flight or applied, and none is applied twice |
| `FetchChain.AppliedAtLastCallback` | src/nodedb.cpp:577-627 | A round is applied and sets its one successor timer exactly at its last callback, whatever the order, the failures, or an exception while applying; the known set then becomes exactly what more than half of the sources selected from the path ends given to its timer named in their replies, one of them inbound, unless that is nothing or the exception came before it was replaced; earlier callbacks change nothing else |
| `FetchChain.RunRecords` | src/nodedb.cpp:577-610 | The answers a round has collected are, source by source, those its callbacks brought in the run |
| `FetchChain.RunSources` | src/nodedb.cpp:511-610 | In every run each round in flight asks exactly the first five path ends given when its timer fired, and holds as inbound exactly the first five ends of inbound paths among them |
| `FetchChain.InboundVouches` | src/nodedb.cpp:577-704 | Every identifier that becomes known in a run was in the reply of one of the inbound sources of the round applied |
| `FetchChain.NeverStuck` | src/nodedb.cpp:511-631 | Until it is stopped there is always a timer or a round with an outstanding request |
| `FetchChain.NoStopNoHalt` | src/nodedb.cpp:511-631 | A run in which the router is not stopped never ends the chain |
| `ContactStore.ContactDb.PutCc` | src/contact/contactdb.cpp:52-105 | The answer and the store are those of the newest-verified-wins rule; a refused or failed put, tentative insertion included, leaves the store unchanged |
| `ContactStore.ContactDb.GetEncryptedCc` | src/contact/contactdb.cpp:15-25 | A lookup returns the held record exactly until 23 minutes after its signing |
| `ContactStore.ContactDb.PurgeCcs` | src/contact/contactdb.cpp:34-50 | Purging removes exactly the records past the longest lifetime, and nothing when the router is not running |
| `ContactStore.PurgingUnobservable` | src/contact/contactdb.cpp:15-105 | For every history, lookups return what a never-purged store keeping the newest verified record would return |
| `ContactStore.LiveRecordReturned` | src/contact/contactdb.cpp:15-105 | In every history, with any purges, a verified record that no other verified one for its key supersedes is what a lookup returns until 23 minutes after its signing, and nothing is returned from then on |
| `ContactStore.VisibleNeverOlder` | src/contact/contactdb.cpp:15-105 | The signing time seen for a key never goes backwards |
| `ContactStore.PurgingUnanswered` | src/link/link_manager.cpp:414-424 | For every history, the answer to any submission that the request handler lets through is that of a store never purged |
| `ContactStore.AnswerDiffers` | src/contact/contactdb.cpp:52-105 | For put_cc alone the answer differs if and only if a store never purged would call the submission stale and this one holds nothing as new |
| `ContactStore.PurgedRecordAcceptedAgain` | src/contact/contactdb.cpp:52-105 | Without the guard of the request handler a purged record would be accepted anew |
| `Reachability.RetestInterval` | src/consensus/reachability_testing.cpp:185-194 | The wait lies between zero and the maximum and grows linearly while it is below the maximum |
| `Reachability.BackoffMonotone` | src/consensus/reachability_testing.cpp:185-194 | More failures never mean a shorter wait |
| `Reachability.ReachabilityTesting.GetFailing` | src/consensus/reachability_testing.cpp:229-244 | Entries are taken in due order, at most three still failing ones are returned, and only later ones are left when fewer are |
| `Reachability.ReachabilityTesting.NextRandom` | src/consensus/reachability_testing.cpp:196-227 | The last relay in the queue that is not failing, with the queue cut before it; the queue is filled again only once all in it are failing, and nothing is picked if and only if all in the new one are failing too |
| `Reachability.ReachabilityTesting.AddFailingNode` | src/consensus/reachability_testing.cpp:246-254 | The relay is failing and has a queue entry at its retest time |
| `Reachability.ReachabilityTesting.Tick` | src/consensus/reachability_testing.cpp:51-130 | Takes the earliest due entries, with at most three of relays still failing and nothing due left when fewer; tests those and one picked at random; pings exactly the registered ones with a usable contact, requeues exactly the registered ones without, drops exactly those not registered; and every failing relay stays queued or under test |
| `Reachability.StillFailingMeans` | src/consensus/reachability_testing.cpp:229-244 | Each entry taken of a relay still failing is retested with its count of failures, and no other |
| `Reachability.NextRetest` | src/consensus/reachability_testing.cpp:246-254 | The entry counts one failure more and is due within the maximum wait, ten seconds per failure without noise |
| `Reachability.QueuedIsPicked` | src/consensus/reachability_testing.cpp:196-227 | A relay in the testing queue that does not fail meanwhile is picked within as many ticks as the queue is long, whatever the others do |
| `Reachability.OverdueShrink` | src/consensus/reachability_testing.cpp:229-244 | A tick takes at least three of the entries overdue since a given time, or all of them, and adds none |
| `Reachability.ReachabilityTesting.PingDone` | src/consensus/reachability_testing.cpp:51-130 | The end of a test clears the relay or queues its retest, and loses no other |
| `Reachability.Replay` | src/consensus/reachability_testing.cpp:51-256 | After every sequence of ticks and finished tests each failing relay has a queue entry or a test in flight, and the entries overdue at the start have gone down by three with every tick until none is left |
| `Reachability.FinishedKeepsAll` | src/consensus/reachability_testing.cpp:51-130 | Ending a test either way loses no failing relay |
| `TcpTunnel.TCPConnection.Handle` | src/ev/tcp.cpp:70-290 | Whatever the event, the flags and the effects follow from what has happened: the write side is shut exactly when a FIN is in and the buffer empty, done is told exactly when both directions have ended or the stream is closed, and each effect has happened at most once |
| `TcpTunnel.TCPConnection.FlushAndShutdownWrite` | src/ev/tcp.cpp:227-243 | After a FIN it does what is left undone and nothing else: from a state in which nothing was done too early it reaches one in which everything due is done |
| `TcpTunnel.TCPConnection.OnWriteAvailable` | src/ev/tcp.cpp:70-79 | The stream is resumed and a shutdown put off earlier is made up for |
| `TcpTunnel.EndsStay` | src/ev/tcp.cpp:70-290 | Over every run a direction that has ended stays ended, a connection that is over stays over, and no pause of a connected socket outlives its cause |
| `TcpTunnel.RunTold` | src/ev/tcp.cpp:70-290 | After every run each direction has ended if and only if its end was among the events, and the bytes waiting are those handed over less those taken |
| `TcpTunnel.RunOver` | src/ev/tcp.cpp:70-290 | The stream is closed only by an event that closes it, and after any such event the connection is over |
| `TcpTunnel.Replay` | src/ev/tcp.cpp:70-290 | For every interleaving, from its events alone: a FIN is sent, once, if and only if the application has ended; the write side is shut down, once, if and only if the FIN of the stream has come and everything handed over was taken; done is told, once, if and only if both are so or something closed the stream; a connected socket is never left paused at 64 KiB or less, an accepted one is paused at 512 KiB or more, and reading is off if and only if it was stopped and not resumed |
| `TcpTunnel.DrainFinishes` | src/ev/tcp.cpp:70-253 | With both FINs exchanged and output left, draining it is all it takes to finish |
| `IpNets.TwoPointTest` | src/address/ip_range.cpp:142-156 | Two networks overlap if and only if one contains the address of the other |
| `PrivateNets.FindIpv4Net` | src/address/ip_range.cpp:142-156 | The first clear block of the range in steps of a block, or none when no block is clear, with no 32-bit overflow |
| `PrivateNets.FindPrivateIpv4Net` | src/address/ip_range.cpp:158-189 | The network found has the wanted mask, meets no network in use and lies in the lowest clear block of the first RFC 1918 range, in the order 172.16/12, 10/8, 192.168/16, that is large enough and has one; nothing is found if and only if, in every range large enough, each block of the search length meets a network in use |
| `PrivateNets.FindPrivateIpv6Net` | src/address/ip_range.cpp:191-233 | The lowest clear block within fd2e:7365:7368::/48 in the same way, none if and only if every block meets a network in use, the early refusal included |
| `PrivateNets.ClearMeansDisjoint` | src/address/ip_range.cpp:142-156 | The two membership tests made of a candidate decide whether it is disjoint from all networks in use |
| `PrivateNets.NoneClear` | src/address/ip_range.cpp:158-189 | A search over block numbers covers every network of that length in the range |
| `AddressMaps.AddressMap.Insert` | src/address/map.hpp:22-32 | Succeeds exactly if neither side is mapped; a failure on the second side leaves the directions disagreeing |
| `AddressMaps.AddressMap.LocalOf` | src/address/map.hpp:43-50 | Lookup by remote is the inverse of the other direction |
| `AddressMaps.AddressMap.RemoteOf` | src/address/map.hpp:34-41 | Lookup by local address is the inverse of the other direction |
| `AddressMaps.AddressMap.EraseRemote` | src/address/map.hpp:66-75 | Exactly the pair of the remote goes from both directions, which stay mutual inverses |
| `AddressMaps.AddressMap.EraseLocal` | src/address/map.hpp:77-87 | Exactly the pair of the address goes |
| `AddressMaps.NeverShared` | src/address/map.hpp:22-87 | Remotes with the same local address are the same remote |
| `AddressMaps.RangeIterator.NextIp` | src/address/ip_range.hpp:64-72 | Steps by one until the last address, or until the top when it is already past the last, and then stays |
| `Tun.RangeInNet` | src/address/ip_range.hpp:58-62 | A range from the base of a network to any last address inside it holds only addresses of the network |
| `AddressMaps.GetNextLocal` | src/handlers/tun.cpp:163-194 | From any position the loop ends with the next unmapped address, going round once, and gives none if and only if all are mapped; never the base |
| `AddressMaps.NextFreeUnique` | src/handlers/tun.cpp:163-194 | That address is determined by the position and the map |
| `AddressMaps.InRange` | src/handlers/tun.cpp:163-194 | It lies in the range if and only if the position is not past the last address or everything above it is mapped |
| `KeyAddresses.FromKeyInNet` | src/handlers/tun.cpp:201-229 | For every mask from 0 to 128 the address derived from a key lies in the local network |
| `KeyAddresses.KeyBytes` | src/handlers/tun.cpp:208-227 | Which key byte goes to which address byte, replacing it or joined by OR |
| `KeyAddresses.KeyPrefixTells` | src/handlers/tun.cpp:201-227 | Where the host bytes of the local address are zero, keys that differ in the bytes used get different addresses |
| `Tun.AddMappings` | src/handlers/tun.cpp:82-111 | Reservations outside the network or clashing with an entry are skipped, all others entered, nothing else changes and no insertion fails |
| `Tun.TunEndpoint.constructor` | src/handlers/tun.cpp:78-115 | Our own addresses are mapped to us and the invariants hold, for any own address in its network |
| `Tun.TunEndpoint.Map4` | src/handlers/tun.cpp:272-297 | A mapped remote keeps its address; another gets the next free one, and none exactly when the range is full; the insertion never fails |
| `Tun.TunEndpoint.GetNextLocalIpv6` | src/handlers/tun.cpp:201-245 | The key address exactly when it is free and neither ours nor the base, otherwise the next free one; always unmapped, in the network and not the base |
| `Tun.TunEndpoint.Map6` | src/handlers/tun.cpp:247-270 | The same with the key address first; the failure case exactly when that is taken and the range is full |
| `Tun.TunEndpoint.Expire` | src/handlers/tun.cpp:299-310 | The remote moves to the end of the list; exactly those pushed out of the front lose both addresses; the node index stays that of the list |
| `Tun.TunEndpoint.PruneExpired` | src/handlers/tun.cpp:312-323 | The newest remain, and exactly the others lose both addresses |
| `Tun.Replay` | src/handlers/tun.cpp:247-323 | After every sequence of map4, map6 and expire calls both maps are mutual inverses, inside their networks when our own addresses are in range, and for each family the remotes mapped and remembered are those of the history of successful calls |
| `ExpiredCache.CacheIsNewest` | src/handlers/tun.cpp:299-323 | After any history the list is the last `keep` of all expired remotes ordered by their last expiry |
| `ExpiredCache.RecentAround` | src/handlers/tun.cpp:299-323 | In that order exactly the remotes expired since come after a remote |
| `ExpiredCache.Remembered` | src/handlers/tun.cpp:299-323 | A remote is in the list if and only if it has expired and fewer than `keep` distinct remotes have expired since |
| `ExpiredCache.InUseKept` | src/handlers/tun.cpp:247-323 | A remote mapped again and then left alone keeps its address if and only if it had never expired, had already been forgotten, or fewer than `keep` distinct remotes have expired since its last expiry |
| `ExpiredCache.InUseLost` | src/handlers/tun.cpp:247-323 | A concrete run in which a remote in use loses its address because its old entry stayed in the list |
| `ZeroRtt.TicketStore.StoreTicket` | src/nodedb.cpp:1370-1382 | The oldest make room, the new ticket is last, and the relay is marked changed |
| `ZeroRtt.StoreBounds` | src/nodedb.cpp:1370-1382 | A store leaves the new ticket last and before it only the newest of those held |
| `ZeroRtt.TicketStore.ExtractTicket` | src/nodedb.cpp:1384-1406 | The ticket given and the tickets left are those of the step function (GivenIsFirstUnexpired, UnexpiredNeverLost) |
| `ZeroRtt.GivenIsFirstUnexpired` | src/nodedb.cpp:1384-1406 | What is given is the first unexpired ticket held, and nothing if and only if all are expired |
| `ZeroRtt.TicketStore.TakeSnapshot` | src/nodedb.cpp:1408-1463 | Every changed relay is pruned and set down to be written, or erased when nothing is left; none stays marked |
| `ZeroRtt.TicketStore.WriteFiles` | src/nodedb.cpp:1465-1485 | Each relay set down has its file written or erased, no other is touched |
| `ZeroRtt.TicketStore.LoadTickets` | src/nodedb.cpp:1120-1160 | Memory holds the unexpired tickets of each file, and files without any are removed |
| `ZeroRtt.LoadedMeans` | src/nodedb.cpp:1120-1160 | A ticket is loaded if and only if a file holds it and it has not expired; exactly the files with such a ticket stay, unchanged |
| `ZeroRtt.FilesMatchMemory` | src/nodedb.cpp:1370-1485 | After every orderly run a relay neither changed nor awaiting a write has the same live tickets in memory and on disk, at every later time |
| `ZeroRtt.StepAgrees` | src/nodedb.cpp:1370-1485 | An event keeps memory and the settled files in agreement if and only if it is orderly, which only a write can fail to be: the relay has changed again, or a newer save will write it, or no older write of it is left, or that one would bring back the same live tickets |
| `ZeroRtt.RunAgrees` | src/nodedb.cpp:1370-1485 | They agree throughout a run if and only if every event of it is orderly |
| `ZeroRtt.FileSettles` | src/nodedb.cpp:1465-1485 | The settled file of a relay is the one reached by making the writes that are left, oldest first |
| `ZeroRtt.SerialIsOrderly` | src/nodedb.cpp:1408-1485 | One save at a time makes every event orderly |
| `ZeroRtt.OverlappingSavesDisagree` | src/nodedb.cpp:1172-1193 | Two overlapping saves, as the flush at shutdown can cause, may leave a used ticket on disk |
| `ZeroRtt.RunConserves` | src/nodedb.cpp:1370-1485 | Over every run whose restarts find the file still held, whatever the order of writes, the tickets given out and still held are no more than those held at first and stored |
| `ZeroRtt.StepConserves` | src/nodedb.cpp:1097-1485 | Every event conserves the tickets of a relay, a restart if and only if the live tickets of its file are all still held |
| `ZeroRtt.SerialIsHeld` | src/nodedb.cpp:1172-1193 | One save at a time, with restarts only when nothing is left to save or write, keeps every file held |
| `ZeroRtt.GivenAtMostOnce` | src/nodedb.cpp:1384-1406 | So a ticket stored once is given out at most once |
| `ZeroRtt.UnexpiredNeverLost` | src/nodedb.cpp:1370-1485 | Over every run in which a ticket does not expire, is not pushed out by a store into two and is on disk at a restart, each copy held at first or stored is given out or still held |
| `ZeroRtt.RestartUnsavedGivesTwice` | src/nodedb.cpp:1384-1406 | A restart between an extraction and its save gives the ticket out again |

## Left out

- DnsRoundTrip.EncodedMessageReads: names are well formed (labels of 1 to 63 bytes) and the message is at most 2^14 bytes, as the code expects; beyond that see FarNameMisread.
- DnsWriter.EncodeReply: the width of the header patches is a parameter, since the integer writer of the oxenc library is not part of this model; a patch past the end of the buffer is clipped.
- DnsRecords.SoaReads: the data is modelled as a value; the constructor's writes into its own buffer are not.
- Closest.CondenseBit: the four words of a key are read as on a little-endian host.
- DnsReplies.TruncatedReplySeen: two-byte patches and no authority records; TruncatedReplyReads says that it fails otherwise.
- Tun.TunEndpoint.constructor: the last address of a range comes from the libquic address types, which are not part of this model; any last address inside the network is allowed, and membership in the network is promised when our own address is not past it.
- ZeroRtt.FilesMatchMemory: file writes succeed; a failed write is only logged by the program.
- ExpiredCache.InUseKept: is about successful mappings; a map4 call that finds no address changes nothing.
- Reading of reverse-DNS names (`decode_ptr`) and rewriting a raw reply for its query (`rewrite_for`): short case analyses.
- The queue of pending contact lookups (`lookup_rc`), fetching contacts (`fetch_rcs`) and bootstrap scheduling: timers and connections with easy properties.
- EDNS cookies, record text forms and JSON: string handling.
- Hashes, signatures and encryption: uninterpreted; 64-bit bucket hashes are plain words.
- Signing time plus lifetime is added without overflow.
- File formats of contacts and tickets, and errors while reading them: a file holds a value or is absent.
- Incoming reachability checks (`check_incoming_tests`) and the random registered relay: small counters and draws.
- A tunnel socket without a descriptor, and the contents of the tunnelled bytes: the tunnel model counts bytes only.
- The mutex around the tickets and the maps: each locked region is one step.
- Configuration, logging, platform glue, profiling, SNS and authentication policies: plumbing.
