# RealMQ reliability layer: a verified model

RealMQ's QoS build keeps UDP messages reliable with four connected pieces, and this project models all four.

1. **The pending array.** The client keeps every message it has sent in a growable array until the message is acknowledged
   or resent. Lookup is an interpolation search on 64-bit arithmetic that may wrap, with a linear scan behind it; removal
   shifts. `diff_from_arrays` walks the array backward, removing and resending as it goes. (`InterpolationSearch`,
   `DynamicArrays`, `AckDiff`, `SegmentedAcks`, `Arrivals`, `DiffFromArrays`)
2. **The wire.** Messages are `id|timestamp|content`. The ids a server has received are printed, joined with `|` and packed
   greedily into segments of at most 1024 characters; the client tokenises and parses them. (`CText`, `CBuffers`,
   `Messages`, `Packing`, `BufferSegments`, `WireIds`)
3. **The protocol.** Client and server as state machines whose steps are the regions under the array lock and the turns of
   the receive loops, over a network that drops, repeats and reorders packets. (`Endpoints`, `AckReplies`, `Protocol`, `ReplyRuns`,
   `Shutdown`)
4. **The older acknowledgement path and the failure detector.** Bounded batches of ids with a cumulative acknowledgement,
   and the phi accrual detector with its window of heartbeat intervals. (`StringManip`, `Batching`, `MissedIds`,
   `CumulativeAck`, `WindowStatistics`, `WindowEvents`, `HeartbeatHistory`,
   `PhiDetector`)

Where the source updates a structure in place the model is a class or a method with a loop, and its postcondition ties
the new state to a function of the old one. The theorems are about those functions and about whole runs.

How the outside world enters:

- The clock is a parameter. The sweep of the pending array reads it once per element, so it takes a function from the
  index examined to a reading; results for one reading per packet are stated separately, and `BetweenReadings`,
  `SegmentsBetweenReadings` and `SegmentsAreOne` relate the two.
- A socket is a log of the packets handed to it. A delivery step takes any entry of the log, any number of times or never.
- `exp`, `log10` and `sqrt` are function parameters. The first two are assumed monotone and `exp` not negative; `exp` may
  reach zero, as `expf` does. Floats are exact reals.
- `uint64_t` and `long long` are ranges of integers, with the wrap-around of the id counter and of the search's product,
  the clamping of `strtoull` and `strtoll`, and the truncating division of the timeout check written out.

## Where the code differs from its documentation

- The window of intervals is documented as the last samples (README.md:202). Adding to a full window drops the oldest
  sample but leaves the new one outside the counted part, so every second sample is lost. `WindowIsLatest` gives the
  exact condition under which the documented claim holds, `WindowAfter` and `EnteredAt` what the window holds instead.
- The default message timeout is documented as one second (common/qos/dynamic_array.c:505-506). The code uses 2000 ms
  with a truncating division and a strict comparison, so it is 2.001 s (`DefaultTimeout`).
- A negative timestamp does not survive the wire, because it is printed as an unsigned number and clamped on parsing
  (`MessageRoundTrip` is an equivalence; id and content always survive).
- Processing an acknowledgement segment by segment may resend a message that a later segment acknowledges
  (`ResentThoughAcknowledged` gives runs in which it does, `SegmentsResendMore` says exactly when, `ReplyNeverTooLate` when it can
  happen at all; what stays pending is the same).
- The shutdown waits for an empty list. With several sender threads the first to finish stops server and responder, and
  a list that is not empty by then never becomes so (`StuckForever` is such a run; `WaitCanEnd` and `WaitCanEndAnew` are
  equivalences).
- A closing batch that would consist of one empty id is never sent, and an id containing the separator is split
  (`BatchesSayTheIds` is an equivalence).
- A full array of capacity 0 or 1 does not grow (`GrowsIffTwo`).

## Model

| member | source | states |
|---|---|---|
| `Protocol.EveryRunKeepsInv` | src/realmq_client.c:34-77 | in every state reached by any interleaving of sends, deliveries, heartbeats, sweeps and counts that draws fewer than 2^64 ids: the issued ids are the disjoint union of pending, acknowledged and resent; the pending array is strictly increasing within [1, counter]; every acknowledged id was received; an id has been handed to the network exactly once for its send, if that succeeded, plus exactly once if it was resent; what the server received had been handed over; the reported total, with the result not yet counted if there is one, is the number of resends |
| `Protocol.NextKeepsInv` | src/realmq_client.c:184-244 | each single step keeps all five parts of that invariant |
| `Protocol.SendKeepsInv` | src/realmq_client.c:184-244 | drawing an id and appending under one lock keeps the array ordered and the new id unsent before, whether or not the send succeeds |
| `Protocol.SweepKeepsInv` | src/realmq_client.c:50-57 | a sweep on any delivered reply, however stale or repeated, keeps the invariant |
| `Protocol.ServerTakesKeepsInv` | src/realmq_server.c:85-124 | a server turn on any packet of the log keeps it: what the server holds it has received |
| `Protocol.SweepPartition` | common/qos/dynamic_array.c:526-594 | a sweep of an increasing array deals every pending id into exactly one of kept (still increasing), missed (without repetition) and acknowledged, and the three sizes add up |
| `Protocol.TransmissionsOfMessages` | common/qos/dynamic_array.c:550-565 | resending a list of distinct messages hands each of their ids to the network once and no other id |
| `Protocol.RepliesName` | src/realmq_server.c:32-64 | a reply names only ids the server holds, or the id 0 of a wake-up |
| `Protocol.DrainedRun` | src/realmq_client.c:124-139 | when the client's shutdown finds its list empty and the last result is counted, sends equal acknowledgements plus the reported misses, every issued id was received or resent, an acknowledged id was transmitted exactly once, and an unacknowledged one was resent |
| `Shutdown.WaitCanEnd` | src/realmq_client.c:124-139 | from any reached state some continuation, which may deliver an old reply again, empties the list the shutdown waits on if and only if it is empty already or the responder still listens |
| `Shutdown.WaitCanEndAnew` | src/realmq_client.c:124-139 | some continuation that reads only packets sent from now on empties the list if and only if it is empty already, or the responder listens and the server runs |
| `Shutdown.StuckForever` | src/realmq_client.c:117-155 | a run of five steps after which no continuation ever empties the list: the server is stopped while the list is empty, and another thread sends before the responder reads the final STOP |
| `Shutdown.ListeningDrains` | src/realmq_client.c:124-139 | while the responder listens a draining continuation exists whatever the server has done: a heartbeat makes a running server reply, a stopped one has replied before, and a late enough reading of a reply, delivered again if need be, empties the list |
| `Shutdown.NewReplyDrains` | src/realmq_client.c:124-139 | while the server runs too, a new reply does |
| `Shutdown.StoppedServerReplied` | src/realmq_server.c:94-99 | a server that has stopped has sent at least one reply that is not STOP |
| `Shutdown.StopComesLast` | src/realmq_server.c:200-214 | in every reached state with a running server the packet that ends the responder has not been sent |
| `Shutdown.DeafClientKeeps` | src/realmq_client.c:42-45 | once the responder has ended, every later pending list extends the present one: a sender thread still waiting waits forever |
| `Protocol.WakeupAcksNothing` | src/realmq_server.c:49-58 | in every state that satisfies the invariant, so in every state reached with fewer than 2^64 sends, a delivered wake-up acknowledges nothing |
| `Protocol.ExpiredRunDrains` | src/realmq_client.c:124-139 | any reply, a wake-up included, that arrives when every pending message has expired empties the list the shutdown waits on, and all sends are then accounted for |
| `Protocol.CounterAfter` | common/qos/dynamic_array.c:195-197 | after a run with n sends the id counter is n modulo 2^64, and the next id drawn is the n-th of `DrawnIdsDistinct` |
| `Protocol.DrawnIdsDistinct` | common/qos/dynamic_array.c:195-197 | the first n ids drawn are distinct if and only if n is at most 2^64, and none is 0 if and only if n is less |
| `Endpoints.Client.constructor` | common/qos/dynamic_array.c:21-30 | an empty pending array, counter 0, nothing sent |
| `Endpoints.Client.Send` | src/realmq_client.c:184-244 | the locked region of the send loop is the step `AfterSend`: next id, message appended last, and one packet handed over if the send succeeds |
| `Endpoints.Client.Receive` | src/realmq_client.c:36-57 | the responder's turn is the step `AfterAck`, with exactly its resends in order, when the ids are distinct; on any list nothing acknowledged stays, no unacknowledged id vanishes without a resend, and the result is the number of resends; STOP only ends it |
| `Endpoints.Client.CountMissed` | src/realmq_client.c:67-72 | the result of a sweep is added to the total once |
| `Endpoints.Server.constructor` | src/realmq_server.c:141-146 | an empty array of received ids |
| `Endpoints.Server.SendIds` | src/realmq_server.c:32-64 | all held ids go out as segments, or one wake-up when there is none, and the array is empty afterwards |
| `Endpoints.Server.Receive` | src/realmq_server.c:85-124 | one turn of the receive loop is the step `AfterPacket` and sends exactly the packet's replies |
| `Endpoints.EveryArrivalAcknowledgedOnce` | src/realmq_server.c:32-124 | over any packet sequence the ids in the server's replies, followed by those it still holds, are exactly the ids that arrived, once per arrival and in order; a stopped server holds none |
| `Endpoints.RepliesAcknowledge` | src/realmq_server.c:32-64 | what one reply acknowledges, read with the client's parser, is exactly what the server held |
| `Endpoints.StartChangesNothing` | src/realmq_server.c:94-110 | START changes nothing and is not answered; a heartbeat does not stop the server, STOP does |
| `AckReplies.ReplyIsSweep` | src/realmq_client.c:34-77 | the responder's loop over the packets of a reply, with any clock for each and any messages sent between two of them, is the fold of the sweep over the parsed segments, its total growing by all misses |
| `AckReplies.ReplyInTwo` | src/realmq_client.c:34-77 | what was pending before is swept as if nothing had been sent meanwhile, and what was sent meanwhile follows it |
| `AckReplies.ReplyRoundTrip` | src/realmq_client.c:34-77 | from a server's id list through printing, packing, tokenising, parsing and sweeping, each packet read at its own time: of what was pending the client keeps what one list of all ids, read when the last packet is, would keep; it reports at least the misses that list would, and exactly those if and only if no pending message is acknowledged too late |
| `AckReplies.SentMeanwhileStays` | src/realmq_client.c:184-244 | messages sent while a reply is read, not named by it and not expired, are all still pending, in order, and none is resent |
| `AckReplies.ReplyAtAnyClock` | src/realmq_client.c:34-77 | the same round trip when the clock is read anew for every message: the reply leaves exactly what one list of all ids leaves when each message is read at one of the readings made, and resends beyond it only acknowledged messages |
| `AckReplies.SeveralPackets` | common/qos/buffer_segments.c:4-103 | a reply has more than one packet if and only if the printed ids, joined by bars, exceed 1024 characters |
| `AckReplies.ReplyPackets` | common/qos/buffer_segments.c:4-91 | a reply's packets are the printed ids, in order, in groups joined by bars of at most 1024 characters, each but the last without room for the next id |
| `AckReplies.FewestPackets` | common/qos/buffer_segments.c:4-91 | no groups of at most 1024 characters make fewer packets |
| `AckReplies.NeverTooLate` | src/realmq_client.c:50-57 | whatever is pending and whenever the packets are read, nothing is acknowledged too late if and only if the first segment names every id |
| `AckReplies.ReplyNeverTooLate` | src/realmq_client.c:50-57 | for a server holding distinct ids that means: if and only if the printed ids fit one segment |
| `ReplyRuns.ResentThoughAcknowledged` | src/realmq_client.c:50-57 | for every n of at least 601, below 2^64, a run: n messages are sent and received and the server replies in several packets; one list of all ids would miss nothing, yet the client that reads the packets late ends with misses, having resent messages the reply acknowledges |
| `ReplyRuns.RunReadsReply` | src/realmq_client.c:34-77 | in any run, taking, counting and sending steps do to the client what `AfterReply` says of the packets |
| `ReplyRuns.AfterReplying` | src/realmq_server.c:32-124 | after n sends, n deliveries and a heartbeat the client holds all n messages and the log of replies is exactly the server's reply to 1 to n |
| `DiffFromArrays.Diff` | common/qos/dynamic_array.c:526-594 | on any array: nothing acknowledged stays, nothing is made up, exactly the counted messages are resent, each unacknowledged and expired, and no unacknowledged id vanishes without one; on distinct ids the walk that removes from the array it walks leaves exactly the kept messages in order and misses exactly the specified ones in that order, with or without a radio |
| `DiffFromArrays.Examine` | common/qos/dynamic_array.c:533-586 | one turn: acknowledged, or expired with a radio, removes one element with the examined id (the examined one, if ids are distinct), anything else leaves the array alone; the count and the resend happen exactly on expiry |
| `DiffFromArrays.WalkedFurther` | common/qos/dynamic_array.c:532-589 | the part of the loop invariant that holds on any array, repeated ids included |
| `DiffFromArrays.SweptFurther` | common/qos/dynamic_array.c:532-589 | the part for distinct ids: what is behind the index has its final outcome, what is before it is untouched, although elements were removed |
| `AckDiff.DefaultTimeout` | common/qos/dynamic_array.c:512-517 | with the default a message has expired if and only if at least 2 001 000 microseconds have passed |
| `AckDiff.GivenTimeout` | common/qos/dynamic_array.c:512-517 | with any other limit of T ms a message has expired if and only if 1000 (T + 1) microseconds have passed; a negative limit is crossed as soon as more than 1000 T have |
| `AckDiff.SweepIsFilter` | common/qos/dynamic_array.c:526-594 | at one clock value the walk's recursive outcome is a front-to-back filter, and its resends the complementary filter reversed |
| `AckDiff.SweepMembers` | common/qos/dynamic_array.c:526-594 | a message is kept exactly if it is unacknowledged and not expired (or there is no radio), missed exactly if unacknowledged and expired |
| `AckDiff.OnlyTheSetMatters` | common/qos/dynamic_array.c:538-584 | permuting or repeating the acknowledged ids changes neither what is kept nor what is resent |
| `AckDiff.ReplayDoesNothing` | common/qos/dynamic_array.c:526-594 | replaying an acknowledgement at the same clock value changes nothing and resends nothing |
| `SegmentedAcks.KeptTwice` | common/qos/dynamic_array.c:526-594 | two acknowledgements at one reading keep what their concatenation keeps, and the second resends nothing |
| `SegmentedAcks.SweepIsFate` | src/realmq_client.c:50-57 | sweeping packet by packet, each at any reading, is a filter by the fate of each message: what stays is one filter, what is resent another, each message as often as it was pending |
| `SegmentedAcks.FateOfOne` | src/realmq_client.c:50-57 | while time does not run backward a message stays exactly if one packet with all ids, read last, would let it stay, and is resent exactly if that packet would have it resent or it is acknowledged too late |
| `SegmentedAcks.SegmentsKeepTheSame` | src/realmq_client.c:50-57 | any number of segments, each read at its own non-decreasing time, leaves exactly the pending list that one acknowledgement of all ids leaves at the last reading |
| `SegmentedAcks.SegmentsResendMore` | src/realmq_client.c:50-57 | the segmented resends contain the one-shot resends, and are as many if and only if no message has expired at some packet and is named only by a later one |
| `SegmentedAcks.AllAtOnce` | src/realmq_client.c:50-57 | when all packets are read at one clock value the resends are those of the first segment alone, and too late means expired and named, but not by the first |
| `SegmentedAcks.SegmentsBetweenReadings` | common/qos/dynamic_array.c:512-517 | with a reading per element of every packet, in any order between two bounds, what stays lies between what the bounds would leave, and what is resent between what the first segment alone would have resent at either |
| `SegmentedAcks.SegmentsAreOne` | src/realmq_client.c:50-57 | for any clocks whatsoever, read per element of every packet, there is one clock, each of whose readings is one of theirs, at which one acknowledgement of all ids leaves exactly what the segments leave, and resends exactly those of the segments' resends that no segment names |
| `SegmentedAcks.OneForTwo` | src/realmq_client.c:50-57 | the same for two acknowledgements |
| `Arrivals.SweepOfTwo` | common/qos/dynamic_array.c:526-594 | a sweep of a list in two parts is the sweep of each part, the back part at the readings that follow |
| `Arrivals.ArrivalsFollow` | src/realmq_client.c:50-57 | with messages joining the list between two segments, what was there is swept as if they did not, and they behind it |
| `Arrivals.ArrivalsStay` | src/realmq_client.c:50-57 | whatever joins unnamed and unexpired is all there at the end, in order, and none of it resent |
| `AckDiff.BetweenReadings` | common/qos/dynamic_array.c:512-517 | with a reading per element the outcome lies between those of the earliest and the latest reading |
| `AckDiff.ExpiredDrain` | common/qos/dynamic_array.c:533-589 | if every message has expired at its reading, any id list whatsoever empties the array |
| `AckDiff.NoRadioKeepsUnacked` | common/qos/dynamic_array.c:549-577 | without a radio exactly the unacknowledged messages stay |
| `InterpolationSearch.ProbeInRange` | common/qos/interpolation_search.c:32-33 | the offset computed with the product taken modulo 2^64 never exceeds the span |
| `InterpolationSearch.Probe` | common/qos/interpolation_search.c:32-33 | the probed index lies within [low, high] even when the product wraps, and nothing is divided by zero |
| `InterpolationSearch.ProbeHits` | common/qos/interpolation_search.c:32-33 | while the product does not wrap, a probe for an id as far along the ids as an index is along the range is that index |
| `InterpolationSearch.ProbeWraps` | common/qos/interpolation_search.c:32-33 | a concrete range of five where the product wraps to 0 and the probe falls on its lower end |
| `InterpolationSearch.FirstProbeHits` | common/qos/interpolation_search.c:10-40 | on evenly spaced ids, as a counter draws them, the first probe is the index sought |
| `InterpolationSearch.InterpolateSearch` | common/qos/interpolation_search.c:10-79 | on every array, sorted or not, all accesses are in bounds, the bounds never cross below zero and the loop ends, no index being probed twice; a returned index holds the id; on a non-decreasing array -1 means the id is absent; on evenly spaced ids one probe finds what is there |
| `DynamicArrays.DynamicArray.constructor` | common/qos/dynamic_array.c:21-30 | an empty array with the given capacity |
| `DynamicArrays.DynamicArray.Resize` | common/qos/dynamic_array.c:36-45 | the capacity grows by its half, rounded down, the elements unchanged |
| `DynamicArrays.DynamicArray.Add` | common/qos/dynamic_array.c:62-104 | the element is appended; a full array grows by half and the ledger by exactly the elements it held, otherwise the block stays and nothing is copied |
| `DynamicArrays.DynamicArray.Find` | common/qos/dynamic_array.c:242-265 | search plus fallback return -1 exactly when the id is absent, and on distinct ids the index of a plain scan |
| `DynamicArrays.DynamicArray.RemoveById` | common/qos/dynamic_array.c:242-286 | the same index, and with removal the contents become `old[..i] + old[i+1..]`, otherwise stay |
| `DynamicArrays.DynamicArray.ShiftLeft` | common/qos/dynamic_array.c:273-276 | the shifting loop removes one slot and keeps the order of the others |
| `DynamicArrays.DynamicArray.CleanAll` | common/qos/dynamic_array.c:293-301 | empties the array and returns how many elements it held |
| `DynamicArrays.LinearScan` | common/qos/dynamic_array.c:251-265 | the first index holding the id, -1 exactly when there is none |
| `DynamicArrays.ScanFindsTheOnlyOne` | common/qos/dynamic_array.c:247-265 | on distinct ids any index holding the id is the scan's |
| `DynamicArrays.RemovalKeepsOrder` | common/qos/dynamic_array.c:273-279 | removal keeps strict order and the removed id is gone |
| `DynamicArrays.GrowsIffTwo` | common/qos/dynamic_array.c:36-45 | a resize makes room if and only if the capacity is at least two |
| `DynamicArrays.GrownByHalf` | common/qos/dynamic_array.c:36-45 | the new capacity is one and a half times the old, rounded down |
| `DynamicArrays.AppendCost` | common/qos/dynamic_array.c:62-104 | an append into a full array copies every element it holds, any other copies none and leaves the capacity alone |
| `DynamicArrays.OtherOpsAreFree` | common/qos/dynamic_array.c:267-301 | a removal takes one element, a clearing all, and neither copies, grows or undoes an append |
| `DynamicArrays.AmortisedGrowth` | common/qos/dynamic_array.c:36-104 | over any history of appends, removals and clears from a capacity of at least two, size stays within capacity and all resizes together copy at most four slots per append in the history |
| `Messages.MessageOnTheWire` | common/qos/dynamic_array.c:352-409 | for every message with content, bars included, parsing its wire form gives back id and content, and the timestamp unless it is negative, in which case the largest `long long` |
| `Messages.MessageRoundTrip` | common/qos/dynamic_array.c:352-409 | the round trip is exact if and only if the timestamp is not negative |
| `Messages.MessageLayout` | common/qos/dynamic_array.c:352-367 | the wire form field by field: the id's digits, a bar, the timestamp's as an unsigned number, a bar, the content as it is |
| `Messages.DispatchOn` | src/realmq_server.c:94-110 | a packet is STOP, START or a heartbeat by its first four, five or two characters, whatever follows, and a message otherwise |
| `Messages.UnmarshalByPieces` | common/qos/dynamic_array.c:375-409 | any text read as a message, by its pieces between bars: the first is the id, the second the timestamp or 0, all others together the content, or none |
| `Messages.MarshalledIsData` | src/realmq_server.c:94-112 | a marshalled message is never dispatched as STOP, START or HB, whatever its content |
| `CText.NumberOfDecimal` | common/qos/dynamic_array.c:438-438 | reading a printed number gives the number back |
| `CText.DecimalDigits` | common/qos/dynamic_array.c:428-438 | printing uses the ten decimal digits and appends the last one |
| `CText.ScanDecimal` | common/qos/dynamic_array.c:467-467 | the conversion reads exactly the printed digits, without sign or overflow |
| `CText.StrtoullReads` | common/qos/dynamic_array.c:389-389 | `strtoull` on spaces, a sign, digits and a rest: the number, cut to the largest value, wrapped below zero after a minus, 0 without digits |
| `CText.StrtollReads` | common/qos/dynamic_array.c:393-397 | `strtoll` likewise, cut to the nearest end of its range |
| `CText.SpaceCharacters` | common/qos/dynamic_array.c:389-389 | the six characters skipped as space |
| `CText.WordFitsTwentyDigits` | common/qos/dynamic_array.c:428-428 | every `uint64_t` prints to at most 20 digits |
| `CText.TokensOfJoin` | common/qos/dynamic_array.c:466-469 | tokenising a joined list of proper tokens gives the list back |
| `CText.TokensAreNonEmptyPieces` | common/qos/dynamic_array.c:466-466 | the tokens of any string are its pieces between separators without the empty ones |
| `CBuffers.StrCpy` | common/qos/buffer_segments.c:73-73 | writes the characters and the terminator and nothing else |
| `CBuffers.StrCat` | common/utils/utils.c:46-50 | appends to the string the buffer holds when there is room |
| `WireIds.MeasureIds` | common/qos/dynamic_array.c:425-429 | the first pass computes the block size |
| `WireIds.RoomIsExact` | common/qos/dynamic_array.c:425-439 | the block has room for exactly one character an id more than is written before the last bar becomes the terminator |
| `WireIds.WriteIds` | common/qos/dynamic_array.c:436-439 | every write of the second pass stays inside the computed block, and the block then holds the ids printed, each followed by a bar |
| `WireIds.MarshalIds` | common/qos/dynamic_array.c:420-443 | no buffer exactly for an empty array, otherwise the printed ids joined by bars |
| `WireIds.UnmarshalIds` | common/qos/dynamic_array.c:451-473 | the array holds the parsed value of every token in order |
| `WireIds.MarshalAndSplit` | common/qos/buffer_segments.c:94-103 | the segments are those of the specification `AckSegments`, also in the early exit for one over-long id |
| `WireIds.SegmentsParseBack` | common/qos/buffer_segments.c:94-103 | whenever every id fits a segment, parsing all segments in order and concatenating gives exactly the original list, and no segment exceeds the limit |
| `WireIds.AckRoundTrip` | common/qos/buffer_segments.c:7-103 | wherever the source is defined, the round trip holds if and only if every id fits a segment |
| `WireIds.AckRoundTripAsShipped` | common/qos/buffer_segments.c:4-103 | with the shipped limit every list of ids makes the round trip, in packets that fit the client's receive buffer with their terminator |
| `WireIds.SegmentsStartWithDigit` | src/realmq_client.c:42-45 | a segment starts with a digit, so the responder never takes it for STOP |
| `WireIds.WakeupIsZero` | src/realmq_server.c:49-58 | a wake-up parses as the single id 0 |
| `Packing.PackKeepsTokens` | common/qos/buffer_segments.c:46-86 | the greedy groups concatenate to exactly the tokens |
| `Packing.PackFits` | common/qos/buffer_segments.c:46-86 | every greedy group, joined, is within the limit |
| `Packing.GreedyStaysAhead` | common/qos/buffer_segments.c:46-86 | from any state of the loop, a packing that has got no further needs at least as many groups |
| `Packing.GreedyIsOptimal` | common/qos/buffer_segments.c:7-91 | for any non-empty token list no split into consecutive fitting groups has fewer groups than the greedy one |
| `Packing.PackIsTight` | common/qos/buffer_segments.c:46-86 | every greedy group but the last has no room for the next token with its bar |
| `Packing.OnlyGreedyIsTight` | common/qos/buffer_segments.c:46-86 | the greedy groups are the only non-empty fitting groups of the tokens that are tight |
| `Packing.TokensOfTexts` | common/qos/buffer_segments.c:46-86 | tokenising the segments gives back the groups they were joined from |
| `BufferSegments.NextToken` | common/qos/buffer_segments.c:36-36 | one `strtok` call: the next token, and the rest still to tokenise |
| `BufferSegments.CountSlots` | common/qos/buffer_segments.c:10-28 | the counting pass: the separators and the slots allocated |
| `BufferSegments.TokensFitSlots` | common/qos/buffer_segments.c:26-30 | there are never more tokens than slots, repeated or trailing separators included |
| `BufferSegments.SlotsOfJoin` | common/qos/buffer_segments.c:10-30 | for a joined list of tokens exactly as many slots are allocated as there are tokens |
| `BufferSegments.SplitBuffer` | common/qos/buffer_segments.c:7-91 | the segments are the greedy packing, all writes stay inside the blocks, and no more slots are used than allocated |
| `BufferSegments.PlaceToken` | common/qos/buffer_segments.c:46-74 | one turn of the packing loop: a token that does not fit closes the segment, then is written |
| `StringManip.SplitCount` | common/string_manip.c:13-22 | there is one token more than there are delimiters |
| `StringManip.CountTokens` | common/string_manip.c:13-22 | the counting pass gives the number of tokens |
| `StringManip.SplitString` | common/string_manip.c:10-62 | the token array is the split at every delimiter, empty tokens included, and every slot is filled |
| `CText.SplitOfJoin` | common/string_manip.c:10-62 | splitting a joined list splits each piece of it |
| `CText.JoinOfSplit` | common/string_manip.c:10-62 | joining the pieces again gives back the string |
| `CText.PiecesAreFree` | common/string_manip.c:10-62 | and no piece holds a delimiter |
| `Batching.SendBatches` | common/utils/utils.c:35-96 | whenever every batch fits the buffer, however long the single ids, the batching loop sends exactly the specified batches in order, every `strcat` staying inside the 1024-byte buffer |
| `Batching.CollectOne` | common/utils/utils.c:45-77 | one turn of the loop keeps: sent so far plus still to come is all the batches |
| `Batching.BatchesFit` | common/utils/utils.c:30-57 | with ids of at most 36 characters every batch with its terminator fits 1024 bytes, the closing id included |
| `Batching.LongestBatch` | common/utils/utils.c:30-33 | a string of ids of 36 characters fits if and only if it holds at most 27, a full batch and the closing id |
| `Batching.BatchHolds` | common/utils/utils.c:31-57 | the batches of n ids are (n + 25) / 26, and batch k holds exactly the 26 ids from 26 k on, the last what is left and the closing id |
| `Batching.BatchTexts` | common/utils/utils.c:59-92 | what is sent is the batches joined by commas, the last only if it is not one empty id alone |
| `Batching.GroupsKeepIds` | common/utils/utils.c:45-77 | the batches hold the collected ids in order and the closing id once |
| `Batching.BatchesSayTheIds` | common/utils/utils.c:30-92 | splitting all batches gives back the ids in order followed by the closing id once, if and only if no id contains the separator and the tail is not one lone empty id |
| `CumulativeAck.Append` | common/utils/utils.c:152-162 | growing a full block by one slot keeps every id in place and puts the new one last, in a new block |
| `CumulativeAck.MessageIds.Add` | common/utils/utils.c:152-162 | keeps the block free of spare slots, every id collected before in order, and the new one behind them |
| `CumulativeAck.MessageIds.ProcessMessageIds` | common/utils/utils.c:27-101 | whenever every batch fits the buffer, sends all batches and empties the list; an empty list sends nothing |
| `CumulativeAck.MessageIds.ProcessMissedMessageIds` | common/utils/utils.c:171-258 | reports and leaves what `Settle` says for the ids in the buffer, in fresh blocks; for an unknown last id the block handed out as missed is the list itself |
| `CumulativeAck.MessageIds.RemoveFirst` | common/utils/utils.c:228-247 | the shifting loop and the shrinking leave exactly the ids behind the cut, in order |
| `CumulativeAck.FindId` | common/utils/utils.c:190-197 | the first index of the last acknowledged id, -1 when there is none |
| `CumulativeAck.CollectMissed` | common/utils/utils.c:206-226 | the nested loops collect exactly the settled ids that no token names, in order |
| `MissedIds.SettleCuts` | common/utils/utils.c:190-247 | a known last id cuts the list at its first occurrence: what follows is left, exactly the unnamed ids before are reported, and of distinct ids none is both; an unknown one reports and leaves everything |
| `MissedIds.UnackedMembers` | common/utils/utils.c:206-226 | exactly the ids not named are reported |
| `MissedIds.BatchesCompose` | common/utils/utils.c:171-258 | settling ordered batches one after the other reports the same misses in the same order and leaves the same suffix as settling their concatenation |
| `MissedIds.BatchesInOrder` | common/utils/utils.c:27-101 | the batches of a list that is an in-order subsequence of the client's distinct ids are ordered |
| `MissedIds.BatchedEqualsWhole` | common/utils/utils.c:27-258 | end to end, through batching, joining, splitting and settling, the client ends as if one acknowledgement had named all ids |
| `MissedIds.ReceivedInOrder` | common/utils/utils.c:171-258 | whichever messages are lost, the ids of the others are an in-order subsequence of the client's |
| `MissedIds.LossesReported` | common/utils/utils.c:27-258 | whichever messages a server received, its batches make the client report exactly those it did not receive up to the last it did, in order, and leave the later ones |
| `HeartbeatHistory.History.New` | common/qos/accrual_detector/heartbeat_history.c:17-75 | no history for an empty window or a negative sum; without given intervals a zeroed window with count 0, consistent if and only if both sums are 0; given intervals, count and sums are taken over as they are, the array not copied |
| `HeartbeatHistory.FirstHeartbeat` | common/qos/accrual_detector/phi_accrual_failure_detector.c:226-249 | the seeded history is consistent and holds what the two samples around the estimate leave in the window; none for an empty window |
| `HeartbeatHistory.History.DropOldest` | common/qos/accrual_detector/heartbeat_history.c:134-140 | the counted prefix loses its first interval |
| `HeartbeatHistory.History.AddInterval` | common/qos/accrual_detector/heartbeat_history.c:147-161 | the counted prefix changes as `AfterAdd` says, and both sums are again the sums over it |
| `HeartbeatHistory.History.AdjustIntervals` | common/qos/accrual_detector/heartbeat_history.c:183-194 | every counted interval is scaled and clipped at zero, and both sums are again the sums over the prefix |
| `HeartbeatHistory.History.MeanValue` | common/qos/accrual_detector/heartbeat_history.c:99-105 | the running sum gives the mean of the counted intervals |
| `HeartbeatHistory.History.VarianceValue` | common/qos/accrual_detector/heartbeat_history.c:112-119 | the running sums give the mean squared deviation of the counted intervals, never negative, so its root exists |
| `WindowStatistics.AdjustByTwentieths` | common/qos/accrual_detector/heartbeat_history.c:168-187 | an interval grows by a twentieth when nothing was missed, shrinks by a twentieth for each missed message, and is 0 from twenty on |
| `WindowStatistics.VarianceIsMeanDeviation` | common/qos/accrual_detector/heartbeat_history.c:112-119 | mean of squares minus square of mean is the mean squared deviation |
| `WindowStatistics.AfterAll` | common/qos/accrual_detector/heartbeat_history.c:147-161 | no sequence of samples makes the window exceed its size |
| `WindowStatistics.WindowAfter` | common/qos/accrual_detector/heartbeat_history.c:134-161 | the window after any samples, in closed form: all of them until it overflows; then the last of those that ever entered, one short after an odd number of further samples and full after an even number |
| `WindowStatistics.EnteredAt` | common/qos/accrual_detector/heartbeat_history.c:134-161 | which samples enter: the first `max`, then every second one |
| `WindowStatistics.SecondNewestIsStale` | common/qos/accrual_detector/heartbeat_history.c:134-161 | in a full window after overflow the last sample is the newest, and the one before it arrived two samples earlier |
| `WindowStatistics.WindowIsLatest` | common/qos/accrual_detector/heartbeat_history.c:147-161 | the window is the latest samples for all n samples if and only if n does not exceed its size, or the size is one and n is odd |
| `WindowStatistics.SeedStatistics` | common/qos/accrual_detector/phi_accrual_failure_detector.c:226-249 | the seeded window has the estimate as its mean (if and only if it holds both samples or the estimate is 0) and a quarter of it as deviation |
| `WindowStatistics.AdjustmentsScale` | common/qos/accrual_detector/heartbeat_history.c:168-194 | any sequence of adjustments of non-negative intervals is one scaling by the product of the factors clipped at zero |
| `WindowStatistics.AdjustedStatistics` | common/qos/accrual_detector/heartbeat_history.c:99-194 | it scales the mean by that product and the variance by its square |
| `WindowEvents.WindowAfterEvents` | common/qos/accrual_detector/heartbeat_history.c:147-194 | samples and adjustments mixed in any order leave in the window the samples that the same samples alone would, each after the adjustments that followed it |
| `WindowEvents.MixedWindow` | common/qos/accrual_detector/heartbeat_history.c:147-194 | for non-negative samples each counted interval is its sample times the product of the clipped factors since it entered |
| `WindowEvents.WornIsScaled` | common/qos/accrual_detector/heartbeat_history.c:168-194 | on non-negative samples any adjustments are one factor each |
| `PhiDetector.EnsureValidStdDeviation` | common/qos/accrual_detector/phi_accrual_failure_detector.c:258-260 | the larger of the deviation and the configured minimum |
| `PhiDetector.DeviationIsRoot` | common/qos/accrual_detector/phi_accrual_failure_detector.c:138-138 | with a square root, the deviation used is the root of the variance where that is at least the minimum, and the minimum otherwise |
| `PhiDetector.ExponentIsCubic` | common/qos/accrual_detector/phi_accrual_failure_detector.c:142-142 | the exponent is the cubic with the source's two coefficients, by its values and the factored difference at any two points |
| `PhiDetector.BranchesAgree` | common/qos/accrual_detector/phi_accrual_failure_detector.c:148-152 | the two branches of the suspicion level are the same real number, strictly between 0 and 1 before the logarithm |
| `PhiDetector.ExponentDecreases` | common/qos/accrual_detector/phi_accrual_failure_detector.c:142-142 | the cubic exponent is strictly decreasing over the whole line |
| `PhiDetector.PhiIsTail` | common/qos/accrual_detector/phi_accrual_failure_detector.c:119-158 | with a positive minimum deviation nothing is divided by zero and the level is the negated logarithm of one tail formula on both sides of the mean |
| `PhiDetector.BeforeHeartbeat` | common/qos/accrual_detector/phi_accrual_failure_detector.c:98-132 | before the first heartbeat the level is 0, and the server available exactly under a positive threshold |
| `PhiDetector.AvailableWhile` | common/qos/accrual_detector/phi_accrual_failure_detector.c:98-158 | after it, available exactly while the tail is positive and its level below the threshold, at the time given or, for 0, the current one |
| `PhiDetector.PhiGrows` | common/qos/accrual_detector/phi_accrual_failure_detector.c:119-158 | for a fixed state the suspicion level never decreases with time, infinity included |
| `PhiDetector.StaysUnavailable` | common/qos/accrual_detector/phi_accrual_failure_detector.c:98-158 | once unavailable at t, unavailable at every later t |

## Left out

- ZeroMQ sockets, reconnecting, linger options and the sender's group names: foreign calls. A resend that fails ends the program and is outside the model.
- A packet too long for its receive buffer: what the source then does is undefined. The client's buffer always suffices (`AckRoundTripAsShipped`); the server's does for messages below 1024 characters.
- Protocol.EveryRunKeepsInv: the total of misses and clock differences are mathematical integers; overflow of the `int` total and of signed 64-bit differences is undefined in C.
- Protocol.DrainedRun: the same holds of its total.
- The threads of the client: a step names no thread, all radios share one log, and each locked region is one step.
- Lock identities, `trylock` and the waits between steps; the model allows every interleaving of the steps.
- Marshalling a message whose content is NULL, which C leaves undefined; pending messages always have content.
- BufferSegments.SplitBuffer: requires a token, and tokens no longer than a segment except for the early exit: the source writes past a block otherwise. `marshal_and_split` always meets this with the shipped limit.
- DynamicArrays.DynamicArray.Add: requires room or a capacity of at least two, because the source writes past the block otherwise.
- DiffFromArrays.Diff: gives the exact outcome on distinct ids only, which every run below 2^64 sends has; on repeated ids, where the search decides which copy is removed, it gives the guarantees listed above.
- InterpolationSearch.InterpolateSearch: stands for both copies of the search, which differ only in how they reach an id.
- CumulativeAck.MessageIds.ProcessMessageIds: requires that every batch fits the response buffer, since the source writes past it otherwise; ids of at most 36 characters always do (`BatchesFit`). A failing send is retried or skipped by the source and is not part of this model.
- The server's counters and JSON statistics, and the client's own message counts.
- When heartbeats are sent; the protocol allows one at any time.
- The responder's adjustment of the detector's window is modelled as `AdjustIntervals`, outside the protocol state.
- `heartbeat` beyond its first call: it adds the interval to a pointer (phi_accrual_failure_detector.c:186), which has no defined effect on the window.
- `state.c` and `compare_and_set`: copying and comparing only.
- `message_queue.c`: not used by client or server.
- HeartbeatHistory.History.New: excludes bad sizes or sums together with given intervals, where the source frees a pointer it never set. NULL arguments elsewhere, for which the source reports an error and returns NULL.
- SegmentedAcks.SegmentsKeepTheSame: one reading per packet, while the source reads the clock per element; `SegmentsAreOne` is the statement for the latter.
- SegmentedAcks.SegmentsResendMore: one reading per packet, likewise.
- Memory: allocation failure, `free`, `realloc` to zero bytes, deep copies of elements.
- Rounding, infinities in sums, and the values of `expf`, `log10f` and `sqrtf`.
- Configuration, logging, files, the system clock, random strings.
- Python scripts, the TCP branch and the build without QoS.
