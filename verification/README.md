# The packet transport of rv_receive, in Dafny

This project models the packet transport of the receiver (the `socket/` directory
and the ADTS frame finder of `faad/`) and proves what it guarantees:

- **UDP video.** A sender numbers messages with a wrapping 32-bit counter, keeps the
  last 30, and sends all slices of a message or those a 256-bit mask selects. A receiver
  rebuilds messages from slices in any order, keeps at most 15 partial ones sorted by
  serial number, asks for what it misses, gives up after five requests, and reports
  finished messages. `UdpSystem` puts sender, network and receiver together as a
  transition system whose network may lose, repeat and reorder.
- **UDP audio.** One reused package (`AudioPath`).
- **TCP.** Three priority queues feed a thread that prints messages as framed slices; the
  reader parses the stream from `recv` chunks of any size.
- **RingBuffer**, a wrap-around byte array of length-prefixed packets, against a queue of packets.
- **getADTSframe**, against the bit layout of section 6.2 of ISO/IEC 13818-7.

## How it is built

Every source class is a Dafny class that updates its fields, buffers and lists in place.
Each method is proved equal to a function on values (`Reassembly.Put`, `Reorder.Step`,
`SenderWindow.Add`, `SendQueues.Get`, ...), and the theorems are lemmas about those
functions, over every input, run or reachable state.

| layer | modules |
|---|---|
| words and numbers | `Types`, `Serial`, `BitWord`, `SliceMask`, `Bytes` |
| slices and messages | `Packet`, `Reassembly`, `BufferSize` |
| the objects | `Combine`, `UdpCombine`, `AudioPath`, `SendCache`, `Ring`, `TcpReceive`, `TcpSend`, `Adts` |
| their values | `Reorder`, `SenderWindow`, `SendQueues`, `Framing`, `TcpStream` |
| whole-run theorems | `Delivery`, `Identity`, `InOrder`, `GapFree`, `StaleReports`, `Retry`, `Lossless`, `Assembly`, `Interleaved`, `Recovery`, `UdpSystem`, `UdpProgress` |

Clocks, `recv` results and the contents of freshly allocated memory are parameters. What a
call sends or hands to `DoRecvMessage` / `DoRecvUdpMessage` is returned, as a copy taken at
that moment.

## What the code does, where one might expect otherwise

- The stale filter runs only when the list is non-empty. A late slice that meets an empty
  list becomes a new package (`InOrder.StepOrderlyIff`), and further slices of its message are
  enough to have it reported behind seqReport (`StaleReports.StaleIsReported`): late
  (`StaleReports.ReportedLate`) or a second time (`StaleReports.ReportedTwice`).
- The report loop does not look for gaps: awaiting 5, the arrivals 7, 5, 6 report 5 and 7
  (`InOrder.GapsAreNotRespected`). Delivery is free of gaps exactly when no leading complete
  package jumps a number and none expires (`GapFree.DecideNoGapIff`, `GapFree.DeliveryGapFreeIff`);
  so interleaved messages are all reported exactly then (`Interleaved.InterleavedIff`), and
  whenever their first slices come in order (`Interleaved.AllInterleavedDelivered`).
- At a full list the front package is dropped before the stale filter runs, so a stale slice
  costs a package (`Delivery.LimitAndFilter`).
- The fifth request comes too late unless a single slice was missing: the next call either
  completes the package or deletes it (`Recovery.LastRequestIff`).
- `ResetData` keeps `dataSize`, so the k-th report of an audio message has k times its size
  (`AudioPath.KthReport`), and its terminator is written that far into the buffer. This stays
  inside exactly under `AudioPath.RunFitsIff`; one duplicated datagram of 18419 bytes is
  enough to write past the end (`AudioPath.OneDuplicateOverruns`, `AudioPath.CopiesFitIff`).
- The send thread copies a cached message to a buffer of 2 MiB, while 255 slices hold almost
  8 MiB. Every queued message fits exactly when no payload is longer than 2 MiB less the
  header of 24 bytes (`UdpSystem.JobsFitIff`, `UdpSystem.NextTurnSafeIff`).
- `Retain` reads a packet length in place. `Read` leaves the read pointer at END behind a
  packet that ends there, and `Retain` then looks past the end (`Ring.ReadPointerAtEnd`); in a
  ring of multiples of four that is the only such case (`Ring.AlignedHeadsWholeIff`).
- `time_after` answers "after" both ways at distance exactly 2^31 (`Serial.TimeAfterIsSerialOrder`).
- A range request that wraps past 2^32 is answered with nothing (`SenderWindow.RangeAnsweredIff`),
  which a sender reaches after 2^32 messages (`SenderWindow.WrappedRangeReached`).
- A message of one slice is sent whole whatever the mask; slice counts are cut to one byte
  (`Packet.FragmentersAgreeIff`).
- The reallocation test of `InitPackage` ignores the header. It is still sufficient for slices
  of more than one page, and would not be for slices of exactly one (`BufferSize.ReuseFitsIff`).
- `PutSendData` tests the length of the video queue for every class, and returns the length
  even when it refuses (`SendQueues.RefusedIff`).
- The comment on `AddSliceMask` speaks of four words; the code and the model have eight.

## Model

| member | source | states |
|---|---|---|
| Serial.TimeAfterIsDistance | socket/UdpCombinePackage.cpp:15 | time_after(a, b) holds exactly when b lies at least 2^31 increments ahead of a |
| Serial.TimeAfterIsSerialOrder | socket/UdpCombinePackage.cpp:15 | time_after is "greater than" of section 3.2 of RFC 1982, plus "after" both ways at distance exactly 2^31, and fails both ways only for equal numbers |
| Serial.TimeAfterFromOrigin | socket/UdpCombinePackage.cpp:15 | among numbers less than 2^31 ahead of a common origin, time_after compares distances from it, and is total |
| SliceMask.AddSliceMask | socket/CombinePackage.cpp:24-28 | the mask as a set gains exactly the slice |
| SliceMask.IsSliceMask | socket/CombinePackage.cpp:35-43 | a null mask selects everything, otherwise exactly the set; slices past word eight are never set |
| SliceMask.SetBitAddsSlice | socket/CombinePackage.cpp:24-28 | setting bit slice % 32 of word slice / 32 adds that slice and no other to the set of eight words |
| SliceMask.ComplementFlips | socket/CombinePackage.cpp:126-130 | complementing the eight words gives the set complement within 0..255 |
| SliceMask.ZeroIsEmpty | socket/CombinePackage.cpp:78 | the cleared mask is the empty set |
| SliceMask.OnesAreEverything | socket/SendPackageCache.cpp:84 | the mask of ones is all 256 slices |
| SliceMask.MaskLayout | socket/CombinePackage.cpp:24-28 | on the wire, slice 33 is the second lowest bit of the second word |
| Packet.SliceCountIsCeiling | socket/SendPackageCache.cpp:50 | the slice count is the least number of slices that holds the payload, and one for an empty payload |
| Packet.PackagedSliceable | socket/SendPackageCache.cpp:50-51 | the one-byte slice count is right exactly for payloads of at most 255 slices |
| Packet.PackagedEmittable | socket/SendPackageCache.cpp:40-63 | every cached message can be cut by Send_l without reading past its payload, even with a truncated slice count |
| Packet.FragmentsPartition | socket/SendPackageCache.cpp:214-243 | the slices joined are the payload; none is longer than the slice size, and none is empty unless the message is |
| Packet.SelectedIsSublist | socket/SendPackageCache.cpp:219-242 | a masked send is the sub-list of the full send that the mask picks: exactly those slices, ascending, once each |
| Packet.SelectedAll | socket/SendPackageCache.cpp:219-242 | a mask holding every slice selects the full list |
| Packet.FullSendIsFragments | socket/SendPackageCache.cpp:186-245 | Send_l with a full mask emits every slice in order, for one slice or many |
| Packet.CutsAreFragments | socket/SendPackageCache.cpp:268-291 | the slices SendDirect builds are those of the cached message, prefix by prefix |
| Packet.FragmentersAgreeIff | socket/SendPackageCache.cpp:258-294 | caching and sending everything equals sending directly if and only if the payload needs at most 255 slices |
| Packet.CountedSend | socket/SendPackageCache.cpp:188-243 | a full send of a payload of any length: with a count of 0 or 1 modulo 256 the whole payload as one packet, otherwise that many slices from the front |
| Packet.DirectSendPartitions | socket/SendPackageCache.cpp:268-291 | a direct send cuts a payload of any length into slices that join to it; slice count and index are taken modulo 256 |
| Reassembly.CompleteMeansAll | socket/CombinePackage.h:33 | counting slices is as good as checking that none is missing |
| Reassembly.PutAssembled | socket/CombinePackage.cpp:91-112 | one arrival takes the closed form of a set of slices to the closed form of the set with that slice added, terminator included |
| Reassembly.StartAssembled | socket/CombinePackage.cpp:67-81 | whichever slice comes first, InitPackage leaves the closed form of that one slice, whatever the buffer held |
| Reassembly.PutHolds | socket/CombinePackage.cpp:91-112 | an arrival keeps the reassembly invariant, stays in the buffer, and changes nothing at all when the slice was there |
| Reassembly.PutTakesIff | socket/CombinePackage.cpp:91-94 | a slice is taken exactly for the number and the slice count of the package; any other changes nothing |
| Reassembly.DoneDelivers | socket/CombinePackage.h:33 | IsDone holds exactly when every slice arrived, and then the package is the message and four zero bytes |
| Reassembly.PutAllAssembles | socket/CombinePackage.cpp:91-112 | after any arrivals the package is the closed form of the set of slices that arrived: mRecvPackages its size, dataSize its volume, data its bytes |
| Reassembly.OrderAndDuplicatesDoNotMatter | socket/CombinePackage.cpp:91-112 | two arrival sequences over the same slices leave the same package |
| Reassembly.DeliveredWhenAllArrived | socket/CombinePackage.cpp:91-112 | a package is done after a run exactly when no slice is missing, and is then the message |
| BufferSize.AllocSize | socket/CombinePackage.cpp:53-56 | the allocation is the least whole number of pages that holds header and payload |
| BufferSize.UdpAllocSize | socket/CombinePackage.cpp:53-56 | for whole 32 KiB slices that is the payload and one page |
| BufferSize.InitKeepsShape | socket/CombinePackage.cpp:67-71 | the reallocation test leaves room for header, payload and terminator although it ignores the header |
| BufferSize.ReuseFits | socket/CombinePackage.cpp:49-71 | over any history of reuses every message and its four zero bytes fit, for every slice size of whole pages above one |
| BufferSize.ReuseFitsIff | socket/CombinePackage.cpp:49-71 | and for a slice size of whole pages, every history fits if and only if it is above one page |
| Combine.CombinePackage.AllocBuffer | socket/CombinePackage.cpp:49-60 | a fresh buffer of the allocated size, number -1, counters untouched |
| Combine.CombinePackage.InitPackage | socket/CombinePackage.cpp:67-81 | the object then stands for Start of the slice over the kept or the new buffer |
| Combine.CombinePackage.PutPackage | socket/CombinePackage.cpp:91-112 | the object then stands for Put of the slice; false exactly for another number or slice count; buffer, mask and counters stay consistent |
| Combine.CombinePackage.GetRequestSliceMask | socket/CombinePackage.cpp:126-130 | the mask written is the set of slices that have not arrived, and the package is unchanged |
| Combine.CombinePackage.GetPackageData | socket/CombinePackage.h:35 | a reader of the pointer sees the package the object stands for |
| Combine.CombinePackage.ResetData | socket/CombinePackage.h:43-46 | forgets which slices arrived and nothing else |
| Reorder.IndexOf | socket/UdpCombinePackage.cpp:66-71 | the first entry with the number, or none |
| Reorder.InsertPos | socket/UdpCombinePackage.cpp:96-103 | the first entry later than the newcomer |
| Reorder.PutFitsOk | socket/UdpCombinePackage.cpp:72-74 | any slice of up to 32 KiB with the package's number stays inside the buffer of a listed package |
| Reorder.StartFitsOk | socket/UdpCombinePackage.cpp:92-94 | so does the first slice of a new package |
| Reorder.InsertKeepsOrder | socket/UdpCombinePackage.cpp:95-104 | inserting before the first later entry keeps neighbours in time_after order and numbers distinct |
| Reorder.StepKeepsValid | socket/UdpCombinePackage.cpp:63-163 | every call keeps: at most 15 entries, distinct numbers, each later than its predecessor, sound buffers, retryCount at most 5; no assumption on the numbers |
| Reorder.WindowTotallyOrdered | socket/UdpCombinePackage.cpp:95-104 | within a window below 2^31 the neighbour order is pairwise total |
| UdpCombine.CombineCache.OnUdpSliceReceived | socket/UdpCombinePackage.cpp:63-163 | the list of objects, the counters, the request sent and the packages reported are those of Step, and the objects stay apart |
| UdpCombine.CombineCache.Absorb | socket/UdpCombinePackage.cpp:65-105 | lookup, limit, filter, creation and ordered insertion as Absorb says |
| UdpCombine.CombineCache.Decide | socket/UdpCombinePackage.cpp:106-162 | asking, discarding and reporting as Decide says |
| UdpCombine.CombineCache.FindFullPackage | socket/UdpCombinePackage.cpp:211-220 | the index of the first complete package, -1 exactly when there is none |
| UdpCombine.CombineCache.DiscardIncomplete | socket/UdpCombinePackage.cpp:139-146 | the timeout loop removes exactly the leading incomplete packages |
| UdpCombine.CombineCache.ReportReady | socket/UdpCombinePackage.cpp:148-161 | the report loop hands over exactly the leading complete packages |
| UdpCombine.CombineCache.RequestMissing | socket/UdpCombinePackage.cpp:125-129 | the request for slices names the front package and what it is missing |
| UdpCombine.CombineCache.RequestSend | socket/UdpCombinePackage.cpp:171-187 | the request carries the given mask, or all slices without one |
| Assembly.AbsorbAt | socket/UdpCombinePackage.cpp:66-74 | a slice of a listed message goes into its package, at whatever position, and every other package stays as it is |
| Assembly.AbsorbNew | socket/UdpCombinePackage.cpp:91-104 | a slice of an unlisted message, on a list of any length, opens a package with exactly that slice, and the others stay but for the front one of a full list |
| Assembly.StepAccounts | socket/UdpCombinePackage.cpp:63-163 | after a whole call each listed package is one listed before, grown by the slice if it is its own, or the new one |
| Assembly.HoldsWhatArrived | socket/UdpCombinePackage.cpp:63-163 | over every run each listed package holds exactly the slices that arrived for it since its creation |
| Delivery.DecideShape | socket/UdpCombinePackage.cpp:106-162 | a call removes a prefix: first incomplete packages, expired, then complete ones, reported; unless it waits or asks, the list ends empty or with an incomplete head |
| Delivery.TimeoutShape | socket/UdpCombinePackage.cpp:137-161 | the timeout branch never deletes a complete package, removes at least one entry, and reports what stands complete behind the deleted ones |
| Delivery.LimitAndFilter | socket/UdpCombinePackage.cpp:76-91 | the front package is dropped exactly for an unlisted number at 15 entries, even when the slice is then ignored; a slice is ignored exactly when unlisted, stale and the list non-empty |
| Delivery.StepConserves | socket/UdpCombinePackage.cpp:63-163 | one call accounts for every package, listed before or created |
| Delivery.Conservation | socket/UdpCombinePackage.cpp:63-163 | over every run, number by number, the packages created are those still listed, reported, dropped by the limit or expired; reported ones were complete, expired ones incomplete |
| Identity.EnteredCorrect | socket/UdpCombinePackage.cpp:63-163 | one call keeps the books: each package, by identity, is in exactly one list, at the place of its number |
| Identity.EachPackageOnce | socket/UdpCombinePackage.cpp:63-163 | over every run each package object ever created is still listed, reported, dropped by the limit or expired: exactly one of them, exactly once, also when several carry one number |
| InOrder.StepOrderly | socket/UdpCombinePackage.cpp:75-161 | unless a stale slice meets an empty list, a call reports in serial order from seqReport on and keeps everything listed at or after the new seqReport |
| InOrder.StepOrderlyIff | socket/UdpCombinePackage.cpp:82-90 | a call lists, reports or expires nothing before seqReport if and only if no stale slice meets an empty list |
| InOrder.ReportedInOrder | socket/UdpCombinePackage.cpp:137-161 | over every run without such a slice, reported numbers strictly increase, counted without wrap-around, and stay before seqReport: none twice, across limit drops and timeouts |
| InOrder.ReportedInSerialOrder | socket/UdpCombinePackage.cpp:137-161 | within 2^31 numbers that is the order of time_after on the wire numbers |
| InOrder.GapsAreNotRespected | socket/UdpCombinePackage.cpp:149-161 | awaiting 5, the arrivals 7, 5, 6 report 5 and 7 together and list 6 behind seqReport |
| GapFree.FollowsIsConsecutive | socket/UdpCombinePackage.cpp:149-161 | packages that each carry the number after their predecessor carry the awaited number and those after it, and conversely |
| GapFree.DecideNoGapIff | socket/UdpCombinePackage.cpp:106-162 | what is reported is consecutive from seqReport and all that seqReport moves past if and only if the call waits or the leading complete packages jump no number and, with the budget spent, the front one is complete |
| GapFree.StepNoGapIff | socket/UdpCombinePackage.cpp:63-163 | the same for a whole call, read off the cache once the slice is in |
| GapFree.DeliveryGapFreeIff | socket/UdpCombinePackage.cpp:63-163 | over a run, the reported numbers are exactly all from the first awaited one up to seqReport, without wrap-around, if and only if every call was so |
| StaleReports.StepAlone | socket/UdpCombinePackage.cpp:106-161 | a package alone in the list that is not awaited only spends requests, and with the budget spent is reported or deleted |
| StaleReports.ParkedIsReported | socket/UdpCombinePackage.cpp:106-161 | a complete one is reported after the remaining requests, on repetitions of a slice it has |
| StaleReports.StaleIsReported | socket/UdpCombinePackage.cpp:82-90 | once a stale slice of any message meets an empty list, further slices of that message alone make the receiver hand it up behind seqReport |
| StaleReports.ReportedTwice | socket/UdpCombinePackage.cpp:82-90 | eight arrivals of the one slice of message 0 report it twice |
| StaleReports.ReportedLate | socket/UdpCombinePackage.cpp:82-90 | awaiting 5, the arrivals 7, 5, 6 and six more of 6 report 5, 7, 6 |
| Retry.StepBudget | socket/UdpCombinePackage.cpp:106-161 | a call that asks had budget and waited INTERVAL_RETRY, and neither reports nor discards; retryCount is 0 after a report or a discard, counts a request, and stays otherwise; with the budget spent a call not ignored asks nothing and resets |
| Retry.BudgetKept | socket/UdpCombinePackage.cpp:106-161 | over every run, with any clock: requests at least INTERVAL_RETRY apart, at most five between two reports or discards, retryCount the number since the last one |
| Retry.SpentMeansReset | socket/UdpCombinePackage.cpp:137-147 | with five spent, the next call not ignored removes at least one package, resets, and leaves an empty list or an incomplete head |
| Retry.StepProgresses | socket/UdpCombinePackage.cpp:106-162 | with a complete package listed, a spaced call reports, asks once more, or loses a complete one to the limit |
| Retry.BlockingIsBounded | socket/UdpCombinePackage.cpp:106-162 | a complete package waits behind missing ones for at most six spaced calls, unless the limit drops a complete one |
| Lossless.SliceStep | socket/UdpCombinePackage.cpp:63-163 | with only the awaited message open, each slice is assembled and the last one hands the message up, without a request |
| Lossless.Round | socket/UdpCombinePackage.cpp:63-163 | the slices of the awaited message, in any order, repeated or not, report that message when the last missing one arrives |
| Lossless.AllDelivered | socket/UdpCombinePackage.cpp:63-163 | a stream of messages arriving whole one after the other is reported completely, once each, in order, across the wrap of the numbers, with no request |
| Lossless.FullSendIsRound | socket/SendPackageCache.cpp:186-245 | the slices of a full send are such a message arrival |
| Interleaved.CallCovers | socket/UdpCombinePackage.cpp:63-163 | among up to fifteen consecutive messages and before a request is due, a call keeps the list equal to what has arrived and is not reported, and leaves nothing complete at the awaited place |
| Interleaved.RunCovers | socket/UdpCombinePackage.cpp:63-163 | so over runs: nothing is dropped or expires, and every report is its message |
| Interleaved.InterleavedIff | socket/UdpCombinePackage.cpp:63-163 | their slices in any interleaving: the receiver ends behind the last message with an empty list, and has reported all of them, whole, once, in order, if and only if no call jumped a gap |
| Interleaved.OpenedSeamless | socket/UdpCombinePackage.cpp:149-161 | none does when the first slices of the messages come in order |
| Interleaved.AllInterleavedDelivered | socket/UdpCombinePackage.cpp:63-163 | in terms of the arrivals alone: first slices in order, the others interleaved at will, none for a message already whole: all messages are reported, whole, once, in order |
| Interleaved.TwoAtOnce | socket/UdpCombinePackage.cpp:63-163 | awaiting 5, the arrivals 5/0, 6/0, 6/1, 5/1 of two-slice messages report 5 and 6 |
| SenderWindow.WindowIsLast30 | socket/SendPackageCache.cpp:40-63 | after any number of additions the cache is exactly the last 30 messages of the whole history |
| SenderWindow.WindowConsecutive | socket/SendPackageCache.cpp:40-63 | it holds min(n, 30) messages with consecutive numbers, around the wrap |
| SenderWindow.LookupIff | socket/SendPackageCache.cpp:156-165 | the lookup of the send thread succeeds exactly for numbers in the window, at their place |
| SenderWindow.RangeAnsweredIff | socket/SendPackageCache.cpp:125-134 | a range request queues exactly the cached messages of the serial range if and only if the range does not wrap or nothing cached is in it |
| SenderWindow.PickedAscending | socket/SendPackageCache.cpp:125-134 | while the window has not wrapped, the picked messages are exactly those numbered in [start, end), ascending, once each |
| SenderWindow.WholeCacheIff | socket/SendPackageCache.cpp:118-135 | with both flags the whole cache is queued if and only if the number after the last cached one has not wrapped |
| SenderWindow.FlagsLiftBounds | socket/SendPackageCache.cpp:119-134 | while the window has not wrapped, flag 1 lifts the lower and flag 2 the upper bound of a range, each on its own |
| SenderWindow.WrappedRangeUnanswered | socket/SendPackageCache.cpp:125-134 | with the wrap inside the window, the range of all cached messages is answered with none of them |
| SenderWindow.WrappedRangeReached | socket/SendPackageCache.cpp:40-63 | a sender that has sent 2^32 + 5 messages is in that state |
| SendCache.SendPackageCache.AddPackageData | socket/SendPackageCache.cpp:40-63 | numbers, packages and caches the payload, evicting from the front, as Add says |
| SendCache.SendPackageCache.Send | socket/SendPackageCache.cpp:71-91 | queues, behind all others, one job with the number and the mask as a set, all slices without a mask; the cache and the numbering stay |
| SendCache.SendPackageCache.SendRange | socket/SendPackageCache.cpp:107-136 | queues one full job per picked message, as AddRange says |
| SendCache.SendPackageCache.SendMasked | socket/SendPackageCache.cpp:215-242 | the cutting loop, reusing one send buffer, emits exactly the selected slices and counts their bytes |
| SendCache.SendPackageCache.Send_l | socket/SendPackageCache.cpp:186-245 | emits exactly the masked slices and returns the bytes written |
| SendCache.SendPackageCache.TransmitNext | socket/SendPackageCache.cpp:151-169 | a turn of the send thread takes the first job and emits its slices of the cached message, or nothing; the message it copies must fit the buffer of 2 MiB |
| SendCache.SendPackageCache.SendDirect | socket/SendPackageCache.cpp:258-294 | emits all slices of the payload under the next number |
| Recovery.ComplementSelectsMissing | socket/UdpCombinePackage.cpp:125-129 | the complement mask, run through the masked send, emits a slice exactly when it has not arrived |
| Recovery.EmittedAreSlices | socket/SendPackageCache.cpp:186-245 | whatever the mask, only slices of the message are sent |
| Recovery.ResendCompletes | socket/CombinePackage.cpp:91-130 | the resent slices, in any order among any other slices of the message, complete the package and restore the message |
| Recovery.RequestAnswered | socket/TcpClient.cpp:561-569 | the sender's turn on a slice request, wherever it is queued, emits exactly the slices the front package is missing |
| Recovery.FrontRun | socket/UdpCombinePackage.cpp:63-163 | while no request is due, slices of the awaited front message are assembled among whatever else is listed, and the last missing one makes it the first package reported |
| Recovery.RequestLeadsToReport | socket/UdpCombinePackage.cpp:121-161 | request, lookup, masked send, reassembly and report together: with budget left, the resent slices in any order before the next request is due make the receiver hand the message up first |
| Recovery.LastRequestIff | socket/UdpCombinePackage.cpp:137-147 | after the fifth request the next slice of the front message reports it if and only if it completes it; otherwise the package is deleted |
| Recovery.RequestIff | socket/UdpCombinePackage.cpp:107-136 | a call asks exactly when there is budget, the interval has passed, and messages before the front are missing or the front one is incomplete while a later one is whole |
| Recovery.RequestSays | socket/UdpCombinePackage.cpp:115-129 | a range request has the type video, no flags, and covers exactly the numbers from the awaited one up to the front package; a slice request has type and number of the front package and exactly its missing slices |
| Recovery.RangeAsksForNoneListed | socket/UdpCombinePackage.cpp:109-119 | a range request covers the awaited number and no number already listed |
| Recovery.RangeRequestAnswered | socket/TcpClient.cpp:570-579 | it is answered with all slices of exactly the cached messages numbered from the awaited one up to the front package, if and only if the range does not wrap or there are none |
| UdpSystem.SubmitKeepsInv | socket/UdpClient.cpp:51-56 | caching and queueing a new message keeps the system invariant |
| UdpSystem.TransmitKeepsInv | socket/SendPackageCache.cpp:138-173 | so does a turn of the send thread whose message fits the thread's buffer |
| UdpSystem.DeliverKeepsInv | socket/UdpCombinePackage.cpp:63-163 | so does delivering any slice ever sent |
| UdpSystem.AnswerKeepsInv | socket/TcpClient.cpp:561-579 | so does answering any request ever made |
| UdpSystem.ApplyKeepsInv | socket/UdpCombinePackage.cpp:63-163 | every step of the system keeps the invariant |
| UdpSystem.TurnIsSafe | socket/SendPackageCache.cpp:141-169 | every turn of the system meets what TransmitNext asks for |
| UdpSystem.SubmitEmits | socket/UdpClient.cpp:51-56 | a new message is queued behind all other jobs, and the turn on its job emits exactly its slices, all in order |
| UdpSystem.SlicesAnswered | socket/TcpClient.cpp:561-569 | a slice request is queued behind all other jobs, and its turn emits exactly the slices asked for, a one-slice message whole, nothing for a message no longer cached |
| UdpSystem.RangeAnswered | socket/TcpClient.cpp:570-579 | a range request queues one job per cached message it picks, in their order, and each turn emits all slices of its message |
| UdpSystem.SubmittedIsFound | socket/UdpClient.cpp:51-56 | the job queued for a new message finds that message, and fits exactly if its payload does |
| UdpSystem.JobsFitIff | socket/SendPackageCache.cpp:141-161 | over a run every queued job fits the buffer of the send thread if and only if no payload exceeds 2 MiB less the header |
| UdpSystem.NextTurnSafeIff | socket/SendPackageCache.cpp:141-161 | from an idle sender the turn after a send is safe exactly then |
| UdpSystem.EndToEndIntegrity | socket/UdpCombinePackage.cpp:63-163 | in every state reachable without overrunning the send thread's buffer, every reported package equals, in number, type, time, size and every byte, the message cached under its number |
| UdpSystem.OrderedDelivery | socket/UdpCombinePackage.cpp:137-161 | for at most 2^31 messages and no stale slice on an empty list, the reports are a strictly ascending subsequence of what was sent |
| UdpProgress.SubmitAndTransmit | socket/SendPackageCache.cpp:138-173 | from an idle system a send and one turn put all slices of the new message on the wire |
| UdpProgress.DeliverStep | socket/UdpCombinePackage.cpp:63-163 | each slice delivered then is assembled, and the last one hands the message up |
| UdpProgress.AllGetThrough | socket/UdpCombinePackage.cpp:63-163 | every list of payloads that fit can be sent so that the receiver hands up exactly these messages, in order, whole |
| UdpProgress.HistoryIsSubmitted | socket/UdpClient.cpp:51-56 | in every run the messages cached are the payloads submitted, in order, with their times, slice counts and consecutive numbers |
| AudioPath.AudioCombine.OnAudioSlice | socket/UdpCombinePackage.cpp:28-40 | the reused object and the report are those of AudioStep |
| AudioPath.PutFitsIff | socket/CombinePackage.cpp:91-112 | after r reports a slice fits if and only if it does not complete the message again, or r + 1 times its size and the terminator fit the data area |
| AudioPath.PutRepeated | socket/CombinePackage.cpp:91-112 | the slice is counted on top of r times the size, leaves the bytes, and the completed package has r + 1 times the size and the terminator there |
| AudioPath.StepFitsIff | socket/UdpCombinePackage.cpp:28-40 | an arrival stays inside the buffer if and only if it does not overrun by a count that knows no bytes |
| AudioPath.CallSafeIff | socket/UdpCombinePackage.cpp:28-40 | the precondition of the method is that same condition |
| AudioPath.RunAgrees | socket/UdpCombinePackage.cpp:28-40 | over every run inside the buffer, package and reports are what that count says |
| AudioPath.RunFitsIff | socket/CombinePackage.cpp:100-107 | every write of a run stays inside if and only if no arrival completes a k-th report whose k times size and terminator exceed the data area |
| AudioPath.KthReport | socket/UdpCombinePackage.cpp:28-40 | reports come in the order of the messages; the k-th of a message has its bytes and k times its size, and is the message if and only if k is 1 or it is empty |
| AudioPath.ExactWithoutRepeats | socket/UdpCombinePackage.cpp:28-40 | when no slice of the latest message arrives after its report, every write fits and the reports are messages, each at most once, in order |
| AudioPath.CopiesFitIff | socket/CombinePackage.h:43-46 | a one-slice message that arrives n times is reported n times with growing size, and stays inside exactly while n times its size and 4 bytes fit 36840 |
| AudioPath.OneDuplicateOverruns | socket/CombinePackage.cpp:100-107 | 18419 bytes arriving twice are written past the end, arriving once they are not |
| Bytes.RoundTrip | socket/Message.h:404-436 | a header field of n little-endian bytes reads back as its value |
| Framing.HeaderLayout | socket/Message.h:400-436 | the 24 header bytes of one packet, field by field, least significant byte first |
| Ring.RingBuffer.Write | socket/RingBuffer.cpp:56-72 | appends the packet to the queue, moves the write pointer past it and returns its length, or changes nothing and returns minus the missing space |
| Ring.RingBuffer.Read | socket/RingBuffer.cpp:83-100 | returns the oldest packet byte for byte and moves the read pointer past it, or changes nothing and returns 0 for an empty queue, minus the needed size for a small dest |
| Ring.RingBuffer.Retain | socket/RingBuffer.cpp:108-125 | drops exactly the packets DropCount says and keeps the rest, given that each inspected length lies whole before the end |
| Ring.RingBuffer.DropFront | socket/RingBuffer.cpp:117-123 | one turn of its loop: the front packet goes, usedSize falls, pointers wrap |
| Ring.RingBuffer.Free | socket/RingBuffer.cpp:42-46 | empties the queue |
| Ring.RingBuffer.GetFreeSize | socket/RingBuffer.cpp:35-37 | capacity minus each packet and its length field |
| Ring.RingBuffer.WriteInner | socket/RingBuffer.cpp:140-155 | writes the bytes from the pointer on, around the end, touching nothing else |
| Ring.RingBuffer.ReadInner | socket/RingBuffer.cpp:169-180 | reads the bytes from the pointer on, around the end |
| Ring.PointersApart | socket/RingBuffer.cpp:67-70 | the write pointer is the read pointer plus usedSize, modulo the capacity |
| Ring.WriteKeepsRing | socket/RingBuffer.cpp:56-72 | writing at the write pointer appends to the bytes between the pointers, also across the end |
| Ring.ReadKeepsRing | socket/RingBuffer.cpp:83-100 | advancing the read pointer takes exactly the front bytes |
| Ring.FrontDropped | socket/RingBuffer.cpp:117-123 | a length read in place is that of the front packet, and the ring without it holds the remaining packets |
| Ring.DropCountFewest | socket/RingBuffer.cpp:116-124 | dropping k packets frees the requested space exactly when k is at least DropCount |
| Ring.AlignedHeadsWholeIff | socket/RingBuffer.cpp:117 | when capacity, pointer and packet lengths are multiples of four, the length fields inspected lie whole before END if and only if the read pointer is not at END or nothing is to be dropped |
| Ring.PastAligned | socket/RingBuffer.cpp:67-70 | writing and reading such packets keeps the pointers multiples of four |
| Ring.ReadPointerAtEnd | socket/RingBuffer.cpp:169-172 | a reachable aligned ring of sixteen bytes whose next length would be read past the end |
| Framing.FrameReadsBack | socket/TcpClient.cpp:432-460 | a frame at the head of a stream gives its size once the header is there and the slice once all of it is, and the rest of the stream behind it |
| TcpStream.CompleteMessages | socket/TcpClient.cpp:431-472 | a reader that holds less than the next frame has taken exactly the messages complete in what it received |
| TcpReceive.AddPacket | socket/TcpClient.cpp:455-459 | slice 0 starts the message afresh whatever the buffer held, a later one is added: one more slice in order |
| TcpReceive.Digest | socket/TcpClient.cpp:455-465 | the last slice of a message hands it over whole, an earlier one nothing |
| TcpReceive.Receive | socket/TcpClient.cpp:432-453 | every recv has at least 192 KiB of room, and what it brings lands behind what is held |
| TcpReceive.Handle | socket/TcpClient.cpp:455-471 | handling a whole packet moves the reader's place to the next frame and shifts the rest to the front |
| TcpReceive.FifteenTimeouts | socket/TcpClient.cpp:436-447 | the connection outlasts fourteen timeouts in a row and ends with the fifteenth |
| TcpReceive.DoRecvLoop | socket/TcpClient.cpp:385-479 | for any split into recv calls: handed over are exactly the messages complete in the bytes received, in order, byte for byte; the buffer is the unparsed tail; the calls are used up to the first that ends the connection |
| SendQueues.VideoBounded | socket/TcpClient.cpp:912-924 | the video queue never exceeds 30 |
| SendQueues.RefusedIff | socket/TcpClient.cpp:912-924 | in every run audio is never refused, and anything else exactly while 30 video messages are queued |
| SendQueues.FirstInFirstOut | socket/TcpClient.cpp:906-982 | per class, what was accepted is what left, in order, followed by what is queued: nothing lost, nothing invented |
| SendQueues.SentInOrder | socket/TcpClient.cpp:950-972 | class by class, what the send thread gets is what left that queue by being sent, in order |
| SendQueues.CommandsOnlySent | socket/TcpClient.cpp:974-982 | commands leave only by being sent |
| SendQueues.PriorityRespected | socket/TcpClient.cpp:950-972 | a get takes the oldest of its class, audio only with no command queued, video only with neither, nothing only when all are empty |
| SendQueues.LinesHomogeneous | socket/TcpClient.cpp:906-940 | every queue only holds messages of its class |
| SendQueues.QueuedByType | socket/TcpClient.cpp:912-924 | in every run the video queue holds only messages of type 0x2002, the audio queue only 0x2003, the command queue neither |
| SendQueues.PutByType | socket/TcpClient.cpp:912-935 | an audio message is always queued behind the audio messages; a video message or a command behind its own, except exactly while thirty video messages are queued |
| SendQueues.GetByType | socket/TcpClient.cpp:959-971 | a video message leaves only while no audio message and no command is queued, an audio message only while no command is; always the oldest of its type |
| SendQueues.ClearByType | socket/TcpClient.cpp:974-982 | clearing audio drops exactly the audio messages, clearing video exactly the video messages |
| TcpSend.SendCacheManager.PutSendData | socket/TcpClient.cpp:906-940 | admits to a queue or not as Put says, whose effect by type SendQueues.PutByType states; the length is returned either way, 0 when not running |
| TcpSend.SendCacheManager.GetSendData | socket/TcpClient.cpp:950-972 | takes what Get says |
| TcpSend.SendCacheManager.SendMessage | socket/TcpClient.cpp:1003-1032 | one message leaves as its frames, header by header, from the reused send buffer |
| TcpSend.SendCacheManager.DoThreadSendData | socket/TcpClient.cpp:990-1038 | whatever other threads put or clear between its turns, the thread writes the messages its gets hand out, in order, numbered from 0 |
| TcpSend.MessageBytesAreRest | socket/TcpClient.cpp:1003-1032 | a message of at most 255 slices leaves as exactly the frames of its slices |
| TcpSend.SentIsReadable | socket/TcpClient.cpp:990-1038 | what the thread writes for a list of messages is the stream from which the reader recovers them |
| Adts.SyncIs | faad/rv1108_aad.cpp:84 | the two-byte test is the twelve-bit syncword |
| Adts.SizeIsFrameLength | faad/rv1108_aad.cpp:87-89 | the bits or-ed into size are the 13-bit aac_frame_length of section 6.2 of ISO/IEC 13818-7 |
| Adts.OutcomesExclude | faad/rv1108_aad.cpp:69-103 | no header, a cut-short frame and a whole frame exclude each other and cover every buffer; the frame is unique |
| Adts.FindHeader | faad/rv1108_aad.cpp:76-94 | the scan ends, finds a header if and only if there is one with seven bytes left, and finds the first |
| Adts.GetADTSFrame | faad/rv1108_aad.cpp:69-103 | -1 exactly for null pointers or no header, 1 exactly when the first frame is cut short, else the frame is copied and its length stored; otherwise nothing is written |

## Left out

- Sockets, epoll, threads, mutexes, `Event::Wait`: each call guarded by a mutex is one atomic step; unlocked reads and data races are not modelled.
- Partial or failing `send`: a slice is wholly sent.
- Memory release and leaks.
- UdpCombine.CombineCache.OnUdpSliceReceived: takes the slices the modelled senders build (a slice count of 1 to 255, an index below it, at most 32 KiB of payload); malformed packets are not modelled.
- TcpReceive.DoRecvLoop: takes a stream of whole messages of at most 255 slices each; like the code it never looks at `magic`.
- The `Tcp` accept loop, client bookkeeping, heartbeat (including its effect on the receive timeout counter), callbacks, UDP address broadcast, both `main` functions.
- The dispatch on the message type in `UdpCombinePackage::OnUdpSliceReceived`: its video and audio branches are modelled, the branch that forwards one-slice messages is not.
- MPP and libfaad decoding, YUV scaling and canvas placement.
- The header inside `mAllBuffers`: `CombinePackage` keeps the header as fields next to a buffer with 24 reserved bytes; only the TCP stream has the header as bytes.
- 32-bit width of `dataSize` and `int` sizes: unbounded here, far from overflow for 255 slices. Timestamps are unbounded in the retry logic.
- Ring.RingBuffer.Write: takes packets whose length plus 4 fits an `int`; the source would overflow beyond.
- Ring.RingBuffer.Retain: requires that each inspected length field lies whole before END, where the source reads past the buffer; `Ring.AlignedHeadsWholeIff` says when it does in an aligned ring.
- SendCache.SendPackageCache.TransmitNext: requires that the message it copies fits the 2 MiB buffer of the send thread, beyond which the source writes past it; `UdpSystem.JobsFitIff` says when it does.
- AudioPath.AudioCombine.OnAudioSlice: requires that the slice is written inside the buffer, beyond which the behaviour of the source is undefined; `AudioPath.CallSafeIff` and `AudioPath.RunFitsIff` say when it is.
- UdpSystem.EndToEndIntegrity: for fewer than 2^32 messages of at most 255 slices; beyond that one number stands for several messages.
- UdpSystem.OrderedDelivery: for at most 2^31 messages; `InOrder.ReportedInOrder` has no such bound.
- AudioPath.KthReport: for arrivals less than 2^31 messages before the latest one and at most 2^31 after it, so that time_after tells them apart.
