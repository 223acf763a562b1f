# Verification of the RPC framework's state machines

This project models the parts of the framework whose correctness rests on small hand-built structures
and on protocols between steps, and proves what they keep.

- **Coroutine scheduler** (`CoroutineModel.dfy`, `CoroutinePass.dfy`, `CoroutineScheduler.dfy`): five circular linked lists of
  coroutines, a dense id table, counters and three sources of wake-ups. The model works on sequences of
  ids; the class keeps the linked nodes and every method is proved to make the model's step. A context
  switch is one step in which the running coroutine creates and wakes others and then yields, sleeps or
  ends; a run is any sequence of such steps.
- **Network buffer and its readers** (`NetworkBuffer.dfy`, `Framing.dfy`, `HttpChunked.dfy`,
  `HttpBodies.dfy`): a list of
  partly consumed chunks as one flat byte sequence; length-prefixed packets written, cut anywhere,
  received and parsed; HTTP responses decoded piece by piece.
- **Client adapter in serial mode** (`TimeoutQueue.dfy`, `SerialModel.dfy`, `SerialOrder.dfy`, `SerialProgress.dfy`,
  `AdapterProxy.dfy`) and its
  **circuit breaker** (`Breaker.dfy`): responses are matched to requests without looking at an id, so the
  matching rests on an invariant over all interleavings of requests, socket events, responses, timeouts
  and reconnections. The breaker's counters stand for a history of results, and its state is followed
  over runs of calls, connections and checks.
- **Allocators and indexes** (`SeqManager.dfy`, `ConnectionList.dfy`, `Timer.dfy`, with `Deadlines.dfy` for
  the ordered multimap they share, `Sockets.dfy` for what is seen of a socket and `Basics.dfy` for stock
  definitions).
- **Server flow control** (`RecvCounter.dfy`, `SlowSender.dfy`): the counter that several network threads
  test and add to, and the window of samples by which a connection is dropped.
- **Selection and text** (`RoundRobin.dfy`, `Endpoint.dfy`, `EndpointText.dfy`, `MatchPeriod.dfy`).

Values that a method computes are given by functions, and what the source promises is proved about those
functions; classes and methods follow the source's own loops and field updates and are tied to the
functions by their contracts. Time, the results of socket calls, random numbers and what other threads do
are inputs.

## Where the code does less than one would expect

Each of these is proved, with the exact condition where there is one.

- A sleeping coroutine that is woken early leaves its entry in the timeout multimap. The entry later wakes
  the coroutine out of a wait that nobody ended, or cuts a new sleep short (`StaleEntryWakesWaiter`,
  `StaleEntryCutsSleepShort`, `WokenEarlyExactly`).
- `moveHeader` passes the advance on as a 32-bit number and drops too little inside a chunk of 4 GiB or
  more (`DroppedExactly`, `NothingDropped`). All callers in the repository pass lengths that fit 32 bits.
- `recvTcp` parses early only what has piled up beyond 8192 bytes. When the peer closes during it, a
  complete packet is lost exactly when the last read found the buffer empty and brought one
  (`LostAtClose`, `CutMattersBeforeClose`).
- A chunk size of 2^31 or more is read as another number (`HexChunkSize`). A chunk of 2^31 - 2 or
  2^31 - 1 bytes is read but not stepped over, since `iChunkSize + 2` is an int; with the usual wrap
  `moveHeader` refuses, and the payload is read again as a size line (`SteppedOver`, `HexPartOk`).
- `doRequest` reports a chunked response as a success whenever the server closes; that is right exactly when
  the line that ends the body has come (`DoRequest`, `ResponseDecided`).
- Closing a connection leaves `_requestMsg` set, so in serial mode a connection lost under a request sends
  nothing until that request times out (`LostBlocksUntilTimeout`, `GetsLost`).
- The count of consecutive failures survives a reconnection that makes the node active: one more failure
  takes it out at once (`StaysFrequent`, `OneMoreFailure`).
- A peer that takes no byte any more is sampled at most once. It is dropped only if that one sample,
  of what went out before it stopped, is bad (`StalledIsDroppedIff`, `StalledRun`,
  `StalledIsNotDropped`, `OneByteIsEnough`).
- The adapter's count of packets to send keeps, for ever, exactly the empty packets, which are counted but
  not queued, those sent on a closed socket, and those of a backlog whose connection was dropped as slow or
  accumulating (`SlowSenders.Connection.Send`, `SendBuffer`, `Close`).
- Timer ids are addresses: an event is fired before its time exactly when it has the address of one erased
  out of the batch in flight and is due later than the batch, or an entry left behind by such an event comes
  due first (`PostedIsFiredEarlyIff`, `EntryIsFiredIff`, `ReusedAddressFiresEarly`, `PostKeepsIff`).
- A negative number behind a vertical tab gets through the endpoint parser, and is then printed in
  a form that the parser refuses (`NegativeDoesNot`, `PrintedIsParsed`).
- `matchPeriod` documents a star as any text that is not empty. A pattern with a star that is followed by
  anything but a dot matches nothing (`LoopIsRightIff`, `BadStarMatchesNothing`).

## Model

| member | source | states |
|---|---|---|
| `CoroutineModel.CreateSound` | src/client/CoroutineScheduler.cpp:435-509 | createCoroutine keeps the invariant, fails exactly when all poolSize coroutines are in use, and otherwise puts the one that has been free longest, or the first of at most 100 new ones if none is free, at the tail of the available list and disturbs nobody in use |
| `CoroutineModel.GrowKeepsInv` | src/client/CoroutineScheduler.cpp:435-483 | the pool grows by 100 coroutines or to poolSize, and then there is a free one unless every one of poolSize is in use; nobody else changes list or status |
| `CoroutineModel.MoveSplits` | src/client/CoroutineScheduler.cpp:779-883 | a move between two lists keeps every id in exactly the list its status names and shifts the two lengths by one |
| `CoroutineModel.MoveKeepsShape` | src/client/CoroutineScheduler.cpp:779-851 | a move between lists other than the free one keeps lists, statuses, ids and counters in agreement |
| `CoroutineModel.InUse` | src/client/CoroutineScheduler.cpp:300-323 | a coroutine that is not free is counted in usedSize, so the decrement when it ends never wraps |
| `CoroutineModel.YieldKeepsInv` | src/client/CoroutineScheduler.cpp:612-622 | yield by the running coroutine keeps the invariant |
| `CoroutineModel.SleepKeepsInv` | src/client/CoroutineScheduler.cpp:624-634 | sleep by the running coroutine keeps the invariant, its timeout entry included |
| `CoroutineModel.FinishKeepsInv` | src/client/CoroutineScheduler.cpp:300-323 | the end of a coroutine keeps the invariant |
| `CoroutineModel.SwitchSound` | src/client/CoroutineScheduler.cpp:770-777 | one context switch, with whatever the coroutine creates and wakes before it yields, sleeps or ends: the invariant holds, it is off both runnable lists, the active list has not grown, and the available list has only been extended |
| `CoroutineModel.WakeBySelfSound` | src/client/CoroutineScheduler.cpp:644-664 | after wakeupbyself nobody who yielded with a request to be woken is still inactive |
| `CoroutineModel.WakeSound` | src/client/CoroutineScheduler.cpp:685-712 | after wakeup every inactive or sleeping coroutine named by put is active; the active list has only been extended |
| `CoroutineModel.DrainAlarmsExact` | src/client/CoroutineScheduler.cpp:714-739 | wakeupbytimeout removes exactly the entries due by now, makes exactly the inactive or sleeping coroutines they name active, and changes no other status |
| `CoroutineModel.NoSleeperOverdue` | src/client/CoroutineScheduler.cpp:714-739 | after wakeupbytimeout at time now whoever still sleeps has a deadline later than now, stale entries or not |
| `CoroutineModel.WokenEarlyExactly` | src/client/CoroutineScheduler.cpp:714-739 | a sleeper whose deadline is in the future is woken exactly when a leftover entry for it is due |
| `CoroutineModel.WokenSleeperSound` | src/client/CoroutineScheduler.cpp:624-712 | a sleeper woken early by put is active again and its timeout entry is still there |
| `CoroutineModel.StaleEntryWakesWaiter` | src/client/CoroutineScheduler.cpp:612-739 | a leftover entry wakes a coroutine that waits, by yield(false), for somebody else's put, although nobody called it |
| `CoroutineModel.StaleEntryCutsSleepShort` | src/client/CoroutineScheduler.cpp:624-739 | a leftover entry ends a later, longer sleep before its deadline |
| `CoroutineModel.RunActiveServesInOrder` | src/client/CoroutineScheduler.cpp:530-546 | the active loop takes exactly the first n active coroutines off, in order, whatever they do while they run |
| `CoroutineModel.RunAvailServesInOrder` | src/client/CoroutineScheduler.cpp:591-608 | the available loop takes the first n off in order; newly created coroutines queue behind |
| `CoroutineModel.ServedInOrder` | src/client/CoroutineScheduler.cpp:591-608 | the available loop switches to the first n available coroutines, in order, before any other |
| `CoroutineModel.PlaceAfter` | src/client/CoroutineScheduler.cpp:511-610 | an event either serves the coroutine at a place of the available list or moves it up by exactly the turns of the pass |
| `CoroutineModel.WaitIsBounded` | src/client/CoroutineScheduler.cpp:511-610 | the wait of an available coroutine is bounded: behind p others it has been switched to when the passes have had more than p turns, and until then has moved up by exactly as many places |
| `CoroutineModel.NobodyAbandoned` | src/client/CoroutineScheduler.cpp:558-562 | usedSize is zero, which ends run(), exactly when all four lists of coroutines in use are empty |
| `CoroutineModel.PassSound` | src/client/CoroutineScheduler.cpp:511-610 | a whole pass of the main loop keeps the invariant |
| `CoroutineModel.StartSound` | src/client/CoroutineScheduler.cpp:356-433 | the state after init has min(100, pool) free coroutines, of pool, or of 1000 if init is refused, and satisfies the invariant |
| `CoroutineModel.EveryRunKeepsInv` | src/client/CoroutineScheduler.cpp:356-883 | from any good state every run of creations, wake-ups, termination, in the middle of a pass or not, and passes of the loop keeps the invariant |
| `CoroutineModel.EveryReachableStateKeepsInv` | src/client/CoroutineScheduler.cpp:356-883 | every state reachable from init: five lists that agree with the statuses, ids 1..currentSize, usedSize equal to currentSize minus the free ones, and no sleeper or self-yielder lost |
| `CoroutinePasses.WakeUpExact` | src/client/CoroutineScheduler.cpp:644-739 | the wake-ups of a pass drain alarms that are due, the self-wake list and the cross-thread queue, and each waiting coroutine gets the status of the first of them that names it and its place in the lists in the order in which it is named; a terminate() in between stops the later ones |
| `CoroutinePasses.PassServesActive` | src/client/CoroutineScheduler.cpp:511-610 | a pass switches to the first 100 of those that were active or are named by a due entry or put, in that order, and leaves the others in it |
| `CoroutinePasses.PutIsServed` | src/client/CoroutineScheduler.cpp:511-712 | a coroutine that waits and has been put is switched to in the next pass, if no more than 100 can be runnable |
| `CoroutinePasses.YieldTrueComesBack` | src/client/CoroutineScheduler.cpp:612-664 | one that yields and asks to be woken is runnable after the next wake-ups |
| `CoroutinePasses.YieldFalseWaits` | src/client/CoroutineScheduler.cpp:612-739 | one that yields and does not ask still waits after the next wake-ups if and only if nobody has put it, no leftover entry is due and no earlier request of its own is open |
| `CoroutinePasses.SleepLasts` | src/client/CoroutineScheduler.cpp:624-739 | one that sleeps still does after the next wake-ups if and only if its time has not come, nobody has put it and no leftover entry is due; otherwise it is active |
| `CoroutinePasses.FinishFrees` | src/client/CoroutineScheduler.cpp:300-323 | one that ends is free, behind the others that are, and counted out |
| `CoroutinePasses.ActsAreDone` | src/client/CoroutineScheduler.cpp:435-509 | while a coroutine runs, each that it creates is in use as long as there is room, and everybody put is queued in order until somebody terminates the scheduler |
| `CoroutinePasses.SwitchIsDone` | src/client/CoroutineScheduler.cpp:612-634 | a switch does what the acts of the coroutine do and then what its ending says: yield, with or without asking to be woken, sleep until a time, or end |
| `CoroutinePasses.LastOfItsTime` | src/client/CoroutineScheduler.cpp:624-634 | who goes to sleep is behind all that are due no later |
| `CoroutinePasses.TerminatedForGood` | src/client/CoroutineScheduler.cpp:511-755 | after terminate() nobody is switched to or woken any more, whatever happens |
| `CoroutineScheduling.CoroutineInfo.HeadInit` | src/include/client/CoroutineScheduler.h:128-132 | the head becomes an empty ring |
| `CoroutineScheduling.CoroutineInfo.HeadEmpty` | src/include/client/CoroutineScheduler.h:137-140 | true exactly when the ring has no member |
| `CoroutineScheduling.CoroutineInfo.AddTail` | src/include/client/CoroutineScheduler.h:145-167 | the node becomes the last member of the ring and no other node outside its neighbours is touched |
| `CoroutineScheduling.CoroutineInfo.Del` | src/include/client/CoroutineScheduler.h:172-186 | the ring loses exactly this member and the node's links are cleared |
| `CoroutineScheduling.CoroutineScheduler.MoveToActive` | src/client/CoroutineScheduler.cpp:779-797 | the linked lists make the model's move to the active list |
| `CoroutineScheduling.CoroutineScheduler.MoveToAvail` | src/client/CoroutineScheduler.cpp:799-811 | the linked lists make the model's move to the available list |
| `CoroutineScheduling.CoroutineScheduler.MoveToInactive` | src/client/CoroutineScheduler.cpp:813-831 | the linked lists make the model's move to the inactive list |
| `CoroutineScheduling.CoroutineScheduler.MoveToTimeout` | src/client/CoroutineScheduler.cpp:833-851 | the linked lists make the model's move to the timeout list |
| `CoroutineScheduling.CoroutineScheduler.MoveToFreeList` | src/client/CoroutineScheduler.cpp:853-883 | the linked lists make the model's move to the free list |
| `CoroutineScheduling.CoroutineScheduler.GenerateId` | src/client/CoroutineScheduler.cpp:757-768 | the next id is one not in the table, so its assertion cannot fail |
| `CoroutineScheduling.CoroutineScheduler.IncreaseCoroPoolSize` | src/client/CoroutineScheduler.cpp:435-483 | adds min(100, room) coroutines as the model does |
| `CoroutineScheduling.CoroutineScheduler.CreateCoroutine` | src/client/CoroutineScheduler.cpp:485-509 | the linked scheduler hands out the id the model does and ends in the model's state |
| `CoroutineScheduling.CoroutineScheduler.Init` | src/client/CoroutineScheduler.cpp:356-433 | the linked lists, table and counters start in the model's state |
| `CoroutineScheduling.CoroutineScheduler.Put` | src/client/CoroutineScheduler.cpp:666-683 | the cross-thread queue grows as in the model, and not after termination |
| `CoroutineScheduling.CoroutineScheduler.PutBySelf` | src/client/CoroutineScheduler.cpp:636-642 | the self-wake list grows as in the model |
| `CoroutineScheduling.CoroutineScheduler.Terminate` | src/client/CoroutineScheduler.cpp:741-755 | sets the terminal flag and nothing else of the value, also between two wake-ups and while a coroutine runs |
| `CoroutineScheduling.CoroutineScheduler.Yield` | src/client/CoroutineScheduler.cpp:612-622 | the running coroutine's yield is the model's |
| `CoroutineScheduling.CoroutineScheduler.Sleep` | src/client/CoroutineScheduler.cpp:624-634 | the running coroutine's sleep is the model's |
| `CoroutineScheduling.CoroutineScheduler.Finish` | src/client/CoroutineScheduler.cpp:319-325 | the end of the running coroutine is the model's |
| `CoroutineScheduling.CoroutineScheduler.WakeUpBySelf` | src/client/CoroutineScheduler.cpp:644-664 | the loop over the self-wake list is the model's wake-up |
| `CoroutineScheduling.CoroutineScheduler.WakeUp` | src/client/CoroutineScheduler.cpp:685-712 | swapping out and draining the cross-thread queue is the model's wake-up |
| `CoroutineScheduling.CoroutineScheduler.WakeUpByTimeout` | src/client/CoroutineScheduler.cpp:714-739 | draining the multimap from its front is the model's wake-up |
| `CoroutineScheduling.CoroutineScheduler.SwitchCoro` | src/client/CoroutineScheduler.cpp:770-777 | a switch to a runnable coroutine and back is the model's |
| `CoroutineScheduling.CoroutineScheduler.RunActive` | src/client/CoroutineScheduler.cpp:530-546 | the loop over the active ring is the model's |
| `CoroutineScheduling.CoroutineScheduler.RunAvail` | src/client/CoroutineScheduler.cpp:591-608 | the loop over the available ring is the model's |
| `CoroutineScheduling.CoroutineScheduler.TarsRun` | src/client/CoroutineScheduler.cpp:566-610 | one call is one pass of the model |
| `CoroutineScheduling.CoroutineScheduler.RunOnce` | src/client/CoroutineScheduler.cpp:511-564 | one turn of run() is one pass of the model with one available coroutine, and it ends when none is in use |
| `NetworkBuffers.DroppedExactly` | src/util/tc_network_buffer.cpp:192-225 | moveHeader(len) drops exactly len bytes across chunks if and only if the advance inside the last chunk fits 32 bits |
| `NetworkBuffers.NothingDropped` | src/util/tc_network_buffer.cpp:192-225 | in a chunk of 2^32 + 1 bytes, moveHeader(2^32) succeeds and drops nothing |
| `NetworkBuffers.DroppedNonEmpty` | src/util/tc_network_buffer.cpp:192-225 | moveHeader leaves no empty chunk behind |
| `NetworkBuffers.LocateReads` | src/include/util/tc_network_buffer.h:311-337 | an iterator at offset n stands on byte n, or on the end |
| `NetworkBuffers.LocateNext` | src/include/util/tc_network_buffer.h:261-281 | ++ on a located iterator is locating the next offset |
| `NetworkBuffers.LocateInjective` | src/include/util/tc_network_buffer.h:172-196 | two iterators compare equal exactly when their offsets do |
| `NetworkBuffers.FindFirst` | src/util/tc_network_buffer.cpp:54-57 | the search in the buffer finds the first place of the separator, or the end if there is none |
| `NetworkBuffers.NetworkBuffer.AddBuffer` | src/util/tc_network_buffer.cpp:11-17 | the flat view grows by the chunk's unread bytes; an empty chunk is not stored |
| `NetworkBuffers.NetworkBuffer.AddBytes` | src/util/tc_network_buffer.cpp:37-42 | the flat view grows by the bytes |
| `NetworkBuffers.NetworkBuffer.ClearBuffers` | src/util/tc_network_buffer.cpp:59-63 | the view is empty |
| `NetworkBuffers.NetworkBuffer.GetBufferLength` | src/util/tc_network_buffer.cpp:70-73 | the length field is the length of the view |
| `NetworkBuffers.NetworkBuffer.GetBuffers` | src/util/tc_network_buffer.cpp:109-131 | copies exactly the first len bytes of the view, whatever the chunks |
| `NetworkBuffers.NetworkBuffer.GetAll` | src/util/tc_network_buffer.cpp:143-152 | returns the whole view |
| `NetworkBuffers.NetworkBuffer.MergeBuffers` | src/util/tc_network_buffer.cpp:87-107 | at most one chunk is left and the view is the same |
| `NetworkBuffers.NetworkBuffer.GetHeader` | src/util/tc_network_buffer.cpp:154-190 | refused exactly when there are fewer bytes; otherwise the first len bytes, and the view is the same |
| `NetworkBuffers.NetworkBuffer.MoveHeader` | src/util/tc_network_buffer.cpp:192-225 | refused exactly when there are fewer bytes; otherwise the chunks are those of the drop, and invariants hold |
| `NetworkBuffers.NetworkBuffer.Skip` | src/util/tc_network_buffer.cpp:192-225 | below 2^32 the view loses exactly its first len bytes |
| `NetworkBuffers.Buffer.Add` | src/include/util/tc_network_buffer.h:129-133 | a chunk is advanced and its assertion holds |
| `NetworkBuffers.BufferIterator.ParseOffset` | src/include/util/tc_network_buffer.h:311-337 | the iterator points at the given offset of the view |
| `NetworkBuffers.BufferIterator.Read` | src/include/util/tc_network_buffer.h:198-211 | reads the byte of the view at the iterator's offset |
| `NetworkBuffers.BufferIterator.Inc` | src/include/util/tc_network_buffer.h:261-281 | moves to the next offset, and not beyond the end |
| `NetworkBuffers.BufferIterator.Plus` | src/include/util/tc_network_buffer.h:218-221 | an iterator n further on, without moving this one |
| `Framing.BigEndianRoundTrip` | src/client/AppProtocol.cpp:47-49 | a number that fits w bytes is read back from its big-endian form |
| `Framing.ParseFrameExtends` | src/include/util/tc_network_buffer.h:747-782 | bytes behind a decision of parseBuffer change nothing but the rest |
| `Framing.GetValue` | src/include/util/tc_network_buffer.h:727-744 | the prefix is read big-endian for each width |
| `Framing.ParseBuffer` | src/include/util/tc_network_buffer.h:747-782 | on any chunking it decides as on the flat bytes, takes exactly the packet, and otherwise leaves the view alone |
| `Framing.FramesSplit` | src/util/tc_epoll_server.cpp:790-859 | the packets of a concatenation are those of the first part, then those of its rest and the second part |
| `Framing.ParseSplit` | src/util/tc_epoll_server.cpp:790-859 | parsing early and again later is parsing late: packets, header to skip and rest are the same |
| `Framing.MalformedForever` | src/util/tc_epoll_server.cpp:838-842 | after a malformed packet no later byte yields another packet |
| `Framing.RecvOnlyDelays` | src/util/tc_epoll_server.cpp:861-919 | whatever recvTcp did with its reads, one more parse gives what parsing all its bytes at once gives; without a close nothing is even delayed |
| `Framing.LostAtClose` | src/util/tc_epoll_server.cpp:861-919 | when the peer closes inside recvTcp all packets in the bytes have been handed on, unless the last read before the close found the buffer empty, so that what it brought is not parsed, and brought a whole packet: exactly then one is lost |
| `Framing.LastReadDecides` | src/util/tc_epoll_server.cpp:895-908 | a whole packet stays behind at the close exactly when the last read found the buffer empty and brought one |
| `Framing.CutMattersBeforeClose` | src/util/tc_epoll_server.cpp:861-919 | a packet of 8192 bytes in one read before the close is lost, and in two reads it is not |
| `Framing.RecvAllIsParse` | src/util/tc_epoll_server.cpp:861-919 | any number of calls of recvTcp without a close is one parse of all their bytes |
| `Framing.CutDoesNotMatter` | src/util/tc_epoll_server.cpp:861-919 | the same bytes, however cut into reads and calls, give the same packets, rest and header to skip |
| `Framing.TarsRequest` | src/client/AppProtocol.cpp:32-54 | reserving four bytes and overwriting them gives the 32-bit total length before the body |
| `Framing.PacketRoundTrip` | src/client/AppProtocol.cpp:32-54 | a written packet is parsed back to its body, with what follows left over, if and only if its length is within the limits |
| `Framing.PacketsRoundTrip` | src/client/AppProtocol.cpp:32-54 | any number of packets written one after another are parsed back to exactly their bodies |
| `Framing.StreamDelivered` | src/util/tc_epoll_server.cpp:790-919 | a header of the agreed length, whole packets and the beginning of another, in any cut: exactly the bodies come out and the beginning stays |
| `Framing.StreamRefused` | src/util/tc_epoll_server.cpp:790-919 | header and whole packets followed by a length beyond the limits, for every width and in any cut: exactly those packets come out, the rest stays, and it is malformed |
| `Framing.PacketsThenRefused` | src/util/tc_epoll_server.cpp:790-919 | the same for packets of the writer |
| `Framing.ReadsTaken` | src/util/tc_epoll_server.cpp:861-919 | one recvTcp reads on exactly as long as its reads are full, and 101 times at most |
| `Framing.Connection.SkipHeader` | src/util/tc_epoll_server.cpp:797-815 | the header of the first packet is skipped across reads |
| `Framing.Connection.ParseProtocol` | src/util/tc_epoll_server.cpp:790-859 | the loop on the segmented buffer is the parse of the flat bytes, and fails if and only if the header has been skipped and a length beyond the limits is next |
| `Framing.Connection.RecvTcp` | src/util/tc_epoll_server.cpp:861-919 | the receiving loop, with its 8192-byte and 100-read rules, ends in the model's state; it fails if and only if the connection has ended or a length beyond the limits is next |
| `HttpChunked.HexChunkSize` | src/util/tc_http.cpp:1226-1226 | a size written in plain hexadecimal is read as that size if and only if it is below 2^31 |
| `HttpChunked.NextExtends` | src/util/tc_http.cpp:1213-1244 | bytes behind a complete chunk, or behind the line that ends the body, do not change how it is read |
| `HttpChunked.ChunksSplit` | src/util/tc_http.cpp:1211-1253 | bytes that come later only continue where the chunk loop stopped |
| `HttpChunked.HexPartOk` | src/util/tc_http.cpp:1224-1244 | a chunk sent with a plain hexadecimal size is one the loop reads and steps over if and only if it has 1 to 2^31 - 3 bytes |
| `HttpChunked.SteppedOver` | src/util/tc_http.cpp:1226-1244 | a complete chunk is read, and is stepped over if and only if it has at most 2^31 - 3 bytes; otherwise the int sum wraps, moveHeader refuses, and the payload is read again as a size line |
| `HttpChunked.ChunksBegun` | src/util/tc_http.cpp:1211-1253 | while the next chunk is incomplete the loop has appended the payloads of those before it; it is at the end if and only if the line that ends the body is next, and otherwise keeps the rest |
| `HttpChunked.ChunksPayload` | src/util/tc_http.cpp:1211-1253 | a chunked body whose chunks have at most 2^31 - 3 bytes each decodes to the concatenation of the payloads before the first chunk whose size is not positive (section 4.1 of RFC 7230) |
| `HttpChunked.DecodeSplit` | src/util/tc_http.cpp:1167-1282 | a decision of incrementDecode stands when more bytes come; otherwise it goes on as if all bytes had come at once |
| `HttpChunked.DecodeAgain` | src/util/tc_http.cpp:1167-1282 | without new bytes another call changes nothing |
| `HttpChunked.FeedIsDecode` | src/util/tc_http.cpp:2169-2195 | feeding pieces until a decision gives the verdict and content of one call on the whole |
| `HttpChunked.CutDoesNotMatter` | src/util/tc_http.cpp:1167-2195 | any two cuts of the same bytes give the same verdict and content |
| `HttpChunked.ShortSplit` | src/util/tc_http.cpp:1167-1253 | if in all the bytes to come the header and the size lines fit 32 bits, they do in what any part of them leaves buffered, so that moveHeader is exact at every step |
| `HttpChunked.ResponseDelivered` | src/util/tc_http.cpp:1167-2195 | a complete chunked response with chunks of at most 2^31 - 3 bytes, in any pieces and with anything behind it, is decoded to the payload of its chunks |
| `HttpChunked.ResponseDecided` | src/util/tc_http.cpp:1167-2195 | a chunked response of which any part has come, in any pieces, is found complete if and only if the line that ends the body has come, and its content is the payload of the complete chunks either way; so success at a close is right exactly then |
| `HttpChunked.HttpResponse.IncrementDecode` | src/util/tc_http.cpp:1167-1282 | on the segmented buffer, in place, it decodes as on the flat bytes |
| `HttpChunked.HttpResponse.ReadChunks` | src/util/tc_http.cpp:1211-1253 | the loop appends exactly the payload of the complete chunks and leaves the rest buffered |
| `HttpChunked.HttpResponse.NextChunk` | src/util/tc_http.cpp:1213-1244 | one turn takes one complete chunk, or nothing |
| `HttpChunked.HttpResponse.ReadHead` | src/util/tc_http.cpp:1171-1208 | the header is taken off, or nothing, as on the flat bytes |
| `HttpChunked.DoRequest` | src/util/tc_http.cpp:2169-2195 | of a response of any length, content and verdict are those of feeding the pieces; the code is success when the response is complete and also when the connection is closed before it is, and otherwise the error of the receive |
| `HttpBodies.HeaderEnds` | src/util/tc_http.cpp:1171-1184 | the header goes up to and including the first empty line |
| `HttpBodies.BodylessIsDone` | src/util/tc_http.cpp:1190-1204 | with status 204 or 304, or 301 or 302 and a location, a response is complete with its header, whatever follows and however cut, and has no content |
| `HttpBodies.BadHeaderThrows` | src/util/tc_http.cpp:1133-1188 | a header that cannot be read ends the response with an exception |
| `HttpBodies.PlainDecided` | src/util/tc_http.cpp:1254-1300 | a response that is not chunked, in any pieces: with a length it is complete if and only if as many bytes have come behind its header, without one not before the connection ends, and its content is all that has come |
| `HttpBodies.SizeWithExtension` | src/util/tc_http.cpp:1224-1226 | a size line is read as its hexadecimal digits in either case, behind blanks and before an extension, saturating |
| `HttpBodies.PrefixedSize` | src/util/tc_http.cpp:1224-1226 | the digits may stand behind 0x |
| `HttpBodies.NegativeSizeEnds` | src/util/tc_http.cpp:1224-1231 | with a minus sign it is read as a negative size |
| `SeqManagers.ChainStarts` | src/client/ServantProxy.cpp:33-54 | the array the constructor fills is one chain through every slot, in order, from _free to _freeTail |
| `SeqManagers.ChainShrinks` | src/client/ServantProxy.cpp:56-77 | taking the front slot leaves the chain of the others; the assertions of get hold |
| `SeqManagers.ChainGrows` | src/client/ServantProxy.cpp:79-96 | hanging a slot behind the tail leaves a chain through each free slot once, ending at it |
| `SeqManagers.RunSound` | src/client/ServantProxy.cpp:56-96 | in every run of gets and dels free plus outstanding ids are num, none is in both, none free twice |
| `SeqManagers.EveryRunSound` | src/client/ServantProxy.cpp:33-96 | the same from the constructor on |
| `SeqManagers.FirstInFirstOut` | src/client/ServantProxy.cpp:56-96 | what a run hands out followed by what is free after it is what was free before it followed by what it returned |
| `SeqManagers.ReusedLast` | src/client/ServantProxy.cpp:56-96 | a released id comes out again only after every id that was free when it was released, and those in order |
| `SeqManagers.SeqManager.Get` | src/client/ServantProxy.cpp:56-77 | the array-threaded list hands out the front of the queue, an id not outstanding |
| `SeqManagers.SeqManager.Del` | src/client/ServantProxy.cpp:79-96 | the array-threaded list puts the id at the end of the queue |
| `ConnectionLists.MasksAreArithmetic` | src/util/tc_epoll_server.cpp:1292-1323 | the masks and shifts on 32-bit words are the remainders and products used in the model |
| `ConnectionLists.IdDecodes` | src/util/tc_epoll_server.cpp:1305-1328 | for every slot below 2^22 masking an id gives back magic number and slot, and the id fits 32 bits |
| `ConnectionLists.MagicBits` | src/util/tc_epoll_server.cpp:1292-1292 | above the slot bits the magic number is the index plus sixteen times the start time |
| `ConnectionLists.MagicsNeverMeet` | src/util/tc_epoll_server.cpp:1292-1292 | two lists have different magic numbers whatever their start times if and only if their indexes differ modulo 16 |
| `ConnectionLists.WrongThread` | src/util/tc_epoll_server.cpp:1320-1328 | an id of one of the threads 1 to 15 is foreign to the list of every other |
| `ConnectionLists.IndexedInsert` | src/util/tc_epoll_server.cpp:1330-1341 | adding a connection keeps one deadline entry for each live slot, to which the slot points |
| `ConnectionLists.IndexedRemove` | src/util/tc_epoll_server.cpp:1481-1495 | removing one keeps that agreement |
| `ConnectionLists.IndexedMove` | src/util/tc_epoll_server.cpp:1357-1361 | so does moving a deadline |
| `ConnectionLists.BookedGet` | src/util/tc_epoll_server.cpp:1305-1318 | handing out an id keeps the partition of 1..total into free slots and slots in use, and the slot was not in use |
| `ConnectionLists.BookedDel` | src/util/tc_epoll_server.cpp:1489-1494 | freeing a live slot keeps the partition |
| `ConnectionLists.IdReusedLast` | src/util/tc_epoll_server.cpp:1305-1495 | the id of a released connection is handed out again only after every slot that was free at its release, in order |
| `ConnectionLists.DueExactly` | src/util/tc_epoll_server.cpp:1364-1401 | the expiry pass names exactly the live TCP connections with a deadline at or before now |
| `ConnectionLists.PassClose` | src/util/tc_epoll_server.cpp:1376-1401 | closing a connection while iterating leaves the rest of the pass as it was |
| `ConnectionLists.NothingAhead` | src/util/tc_epoll_server.cpp:1378-1382 | stopping at the first entry in the future misses nothing |
| `ConnectionLists.ConnectionList.constructor` | src/util/tc_epoll_server.cpp:1278-1303 | the free list holds the slots 1 to total in this order, and nothing is live |
| `ConnectionLists.ConnectionList.GetUniqId` | src/util/tc_epoll_server.cpp:1305-1318 | the slot free longest, under this list's magic number; it is in use from then on |
| `ConnectionLists.ConnectionList.Get` | src/util/tc_epoll_server.cpp:1320-1328 | the connection in the slot for this list's ids, nothing for any other |
| `ConnectionLists.ConnectionList.Add` | src/util/tc_epoll_server.cpp:1330-1341 | the slot handed out becomes live with one entry, and nothing else changes |
| `ConnectionLists.ConnectionList.Refresh` | src/util/tc_epoll_server.cpp:1343-1362 | only this slot's deadline moves; a connection last refreshed no later than its deadline is not due before the new time, even when the call is skipped |
| `ConnectionLists.ConnectionList.Del` | src/util/tc_epoll_server.cpp:1469-1479 | the slot leaves the table and the deadlines and is the last of the free list |
| `ConnectionLists.ConnectionList.DelSlot` | src/util/tc_epoll_server.cpp:1481-1495 | the slot leaves the table and the deadlines and is the last of the free list |
| `ConnectionLists.ConnectionList.Size` | src/util/tc_epoll_server.cpp:1497-1502 | the number of slots in use |
| `ConnectionLists.ConnectionList.CheckTimeout` | src/util/tc_epoll_server.cpp:1364-1401 | at most once a second: closes the due TCP connections in deadline order, keeps every other entry and slot, and frees exactly the closed slots |
| `Deadlines.InsertOrdered` | src/util/tc_epoll_server.cpp:1340-1340 | inserting into the multimap keeps it ordered |
| `Deadlines.RemoveOrdered` | src/util/tc_epoll_server.cpp:1485-1485 | erasing the entry an iterator denotes keeps it ordered and removes only that entry |
| `TimeoutQueues.PushSound` | src/include/client/util/tc_timeout_queue_new.h:238-262 | push keeps map, deadlines and send list in agreement |
| `TimeoutQueues.EraseSound` | src/include/client/util/tc_timeout_queue_new.h:324-340 | erase keeps them in agreement |
| `TimeoutQueues.SentSound` | src/include/client/util/tc_timeout_queue_new.h:190-202 | popSend keeps them in agreement |
| `TimeoutQueues.EarliestFirst` | src/include/client/util/tc_timeout_queue_new.h:283-300 | the first entry is due if and only if some request is, and it names one with the earliest deadline |
| `TimeoutQueues.IdsDiffer` | src/include/client/util/tc_timeout_queue_new.h:228-236 | of fewer than 2^32 - 1 ids drawn in a row no two are the same |
| `TimeoutQueues.TimeoutQueue.GenerateId` | src/include/client/util/tc_timeout_queue_new.h:228-236 | the next 32-bit number, skipping 0 at the wrap |
| `TimeoutQueues.TimeoutQueue.GetSend` | src/include/client/util/tc_timeout_queue_new.h:175-188 | the oldest request that has not been sent, and its assertion holds |
| `TimeoutQueues.TimeoutQueue.PopSend` | src/include/client/util/tc_timeout_queue_new.h:190-202 | that request leaves the send list, and the queue as well if asked to |
| `TimeoutQueues.TimeoutQueue.PushItem` | src/include/client/util/tc_timeout_queue_new.h:238-262 | refused exactly when the id is taken, and then nothing changes |
| `TimeoutQueues.TimeoutQueue.EraseId` | src/include/client/util/tc_timeout_queue_new.h:324-340 | the request leaves all three structures, or nothing changes |
| `TimeoutQueues.TimeoutQueue.Timeout` | src/include/client/util/tc_timeout_queue_new.h:283-300 | takes out the request with the earliest deadline if that has come, and only then |
| `SerialModel.DirectQueueEmpty` | src/client/AdapterProxy.cpp:101-123 | with nothing in flight and nothing unsent the queue is empty, so a request sent at once is never refused by the queue for its id |
| `SerialModel.InvokeKeeps` | src/client/AdapterProxy.cpp:93-153 | invoking a request keeps the invariant in every outcome of sending |
| `SerialModel.DoInvokeKeeps` | src/client/AdapterProxy.cpp:249-283 | sending the oldest waiting request keeps it |
| `SerialModel.DoRequestKeeps` | src/client/Transceiver.cpp:253-279 | flushing the buffer and sending the next request keeps it |
| `SerialModel.AnswerMeetsRequest` | src/client/AdapterProxy.cpp:555-589 | a response taken from the connection answers _requestMsg, which is in the timeout queue, and finishes exactly that request with it |
| `SerialModel.ExpireOneKeeps` | src/client/AdapterProxy.cpp:761-797 | timing out one request keeps the invariant, because the connection is closed when it was the one in flight |
| `SerialModel.DoTimeoutKeeps` | src/client/AdapterProxy.cpp:761-797 | after doTimeout no waiting request is overdue and the invariant holds |
| `SerialModel.CloseKeeps` | src/client/Transceiver.cpp:212-251 | closing the connection at any time keeps the invariant |
| `SerialModel.StepKeeps` | src/client/AdapterProxy.cpp:93-797 | each of invocation, socket writability, response, timeout, close, reconnection and connection keeps it |
| `SerialModel.EveryStateKeepsInv` | src/client/AdapterProxy.cpp:93-797 | every state of every run from a new adapter: at most one request in flight, requests in queue or finished and never both, never finished twice |
| `SerialModel.AtMostOneInFlight` | src/client/AdapterProxy.cpp:93-797 | in every run two unanswered requests on one connection are the same request, it is _requestMsg, and it is in the timeout queue |
| `SerialModel.EveryAnswerIsTheRightOne` | src/client/AdapterProxy.cpp:555-589 | in every run a request finished with a response is the request that response answers |
| `SerialModel.LostBlocksUntilTimeout` | src/client/AdapterProxy.cpp:249-797 | after the connection was lost under a request a step leaves that request in the way, on any later connection, unless it is a timeout check at or after its deadline, and then it does not |
| `SerialModel.GetsLost` | src/client/AdapterProxy.cpp:93-256 | a run from a new adapter that gets there: connected, one request sent whole, closed, connected again |
| `AdapterProxies.AdapterProxy.Close` | src/client/Transceiver.cpp:212-251 | drops the buffers and the connection and leaves _requestMsg, as in the model |
| `AdapterProxies.AdapterProxy.Flush` | src/client/Transceiver.cpp:257-269 | the sending loop hands the socket the buffer in order until it takes no more |
| `AdapterProxies.AdapterProxy.SendRequest` | src/client/Transceiver.cpp:281-340 | the outcome and state of the model, for every sequence of socket results |
| `AdapterProxies.AdapterProxy.Connect` | src/client/Transceiver.cpp:72-109 | an unconnected adapter is connecting or connected, another stays as it is |
| `AdapterProxies.AdapterProxy.ConnectDone` | src/client/Transceiver.cpp:141-152 | a connection under way is there |
| `AdapterProxies.AdapterProxy.InvokeMsg` | src/client/AdapterProxy.cpp:218-247 | the model's invocation, and the invariant holds after it; over the limit no id is drawn, otherwise one for a call from rpc and two for any other, and the last is the request's |
| `AdapterProxies.AdapterProxy.InvokeSerial` | src/client/AdapterProxy.cpp:93-153 | the model's three ways: sent at once, failed, or put in line |
| `AdapterProxies.AdapterProxy.DoInvokeSerial` | src/client/AdapterProxy.cpp:249-283 | the model's step |
| `AdapterProxies.AdapterProxy.DoRequest` | src/client/Transceiver.cpp:253-279 | the model's step, and the invariant holds |
| `AdapterProxies.AdapterProxy.FinishInvokeSerial` | src/client/AdapterProxy.cpp:555-589 | its assertions hold and it finishes _requestMsg with the response; without _requestMsg nothing happens |
| `AdapterProxies.AdapterProxy.DoResponse` | src/client/Transceiver.cpp:349-408 | a complete packet makes the model's step |
| `AdapterProxies.AdapterProxy.DoTimeout` | src/client/AdapterProxy.cpp:761-797 | the loop is the model's, and the invariant holds |
| `SerialOrder.EraseInLine` | src/include/client/util/tc_timeout_queue_new.h:324-340 | a request that times out or is answered leaves the line without changing the order of the others |
| `SerialOrder.SentInLine` | src/include/client/util/tc_timeout_queue_new.h:190-202 | the request sent next is the first of those that wait |
| `SerialOrder.StepInLine` | src/client/AdapterProxy.cpp:93-797 | every step keeps the line: what was asked on the connection, then what waits, in the order of invocation |
| `SerialOrder.AskedInOrder` | src/client/AdapterProxy.cpp:93-283 | in every run the requests asked on a connection were invoked in the order in which they were asked, and before all that still wait |
| `SerialProgress.WriteExact` | src/client/Transceiver.cpp:257-269 | sending hands over the bytes in order, as many as the socket takes, and fails only on an error before all are gone |
| `SerialProgress.WritableSends` | src/client/AdapterProxy.cpp:249-283 | on a connection with nothing in flight the oldest waiting request is sent as soon as the socket is writable and what was left in the buffer is gone, and is then in flight; on an error it fails and the connection is closed |
| `SerialProgress.WritableFlushes` | src/client/Transceiver.cpp:253-279 | otherwise only what is left in the buffer goes out, as far as the socket takes it |
| `SerialProgress.AnswerThenNext` | src/client/AdapterProxy.cpp:249-589 | after an answer the next waiting request is sent in this way |
| `SerialProgress.InvokedWaits` | src/client/AdapterProxy.cpp:93-153 | below the limit, while another is in flight or waiting or the connection is not ready, a request is put in line, unsent, with its deadline |
| `SerialProgress.InvokedIsSent` | src/client/AdapterProxy.cpp:93-153 | otherwise it is sent at once, or fails with the connection |
| `SerialProgress.ResponseCloses` | src/client/AdapterProxy.cpp:555-589 | a response closes the connection if and only if it is to be closed or the breaker trips |
| `SerialProgress.TickExact` | src/client/AdapterProxy.cpp:761-797 | a timeout check finishes exactly the requests whose deadline has come, as timed out, and leaves the others as they were |
| `Breakers.StreakMeans` | src/client/AdapterProxy.cpp:380-394 | the failure counter is n or more exactly when the last n results are failures |
| `Breakers.FrequenceMeans` | src/client/AdapterProxy.cpp:384-405 | the first rule holds exactly when all results since the last success are failures, at least frequenceFailInvoke of them, the first at least minFrequenceFailTime ago |
| `Breakers.StaysFrequent` | src/client/AdapterProxy.cpp:336-827 | a streak of failures that meets the first rule outlives everything but a call that succeeds: failed and successful connections, checks, ends of windows |
| `Breakers.OneMoreFailure` | src/client/AdapterProxy.cpp:384-827 | after the first rule has taken a node out, a connection makes it active whatever has happened since, and as long as no call has succeeded its next failure takes it out again if and only if it comes at or after the time set by the first failure, which has passed already, or the window is over and the second rule holds |
| `Breakers.ConnectionsTakeOutIff` | src/client/AdapterProxy.cpp:345-827 | while nothing succeeds, failed connections take the node out if and only if there is one and they are maxConnectExc with those counted before, which a call that succeeds does not reset |
| `Breakers.OffersApart` | src/client/AdapterProxy.cpp:444-520 | while nothing succeeds, two offers of a node that is out, not forced, are at least tryTimeInterval apart, whatever happens between them |
| `Breakers.OutForAnInterval` | src/client/AdapterProxy.cpp:380-556 | a node that a failed call, a connect timeout, a failed connection or a late check has taken out is not offered, unless forced, before tryTimeInterval has passed, whatever happens in between as long as nothing succeeds |
| `Breakers.AgreeSuccess` | src/client/AdapterProxy.cpp:345-412 | the counters agree with the history after a success, in a window or starting one |
| `Breakers.AgreeFailure` | src/client/AdapterProxy.cpp:377-405 | the counters agree with the history after a failure, and the code's test is the first rule |
| `Breakers.AgreeWindow` | src/client/AdapterProxy.cpp:416-434 | the code's ratio test is the second rule on the window, and the failures never exceed the total |
| `Breakers.Breaker.FinishInvoke` | src/client/AdapterProxy.cpp:336-437 | an active node is taken out exactly when the first rule holds on the history, or the window is over and the second holds, and only then is the connection closed; an inactive one is back exactly on a success; and every field, the end of the next window included, is as in the model |
| `Breakers.Breaker.CountersOrdered` | src/client/AdapterProxy.cpp:377-383 | _timeoutInvoke never exceeds _totalInvoke, in every state the methods can reach |
| `Breakers.Breaker.EndWindow` | src/client/AdapterProxy.cpp:416-434 | the end of a window takes the node out by the second rule or starts the counters anew, and sets the end of the next |
| `Breakers.Breaker.CountFailure` | src/client/AdapterProxy.cpp:380-405 | a failure is entered and the first rule applied |
| `Breakers.Breaker.Recover` | src/client/AdapterProxy.cpp:345-364 | a success while inactive makes the node active, with a history window of its own and a new end of it |
| `Breakers.Breaker.SetConTimeout` | src/client/AdapterProxy.cpp:522-533 | takes the node out on the change to timed out, and only then |
| `Breakers.Breaker.AddConnExc` | src/client/AdapterProxy.cpp:801-827 | a failed connection is counted until there are maxConnectExc of them and then takes the node out; a successful one makes it active and leaves its call history as it was |
| `Breakers.Breaker.CheckActive` | src/client/AdapterProxy.cpp:444-520 | the answer and the new state are those of the model, whose contract says: without force the node is offered if and only if it is active or its retry time has come, and it is connected or the attempt succeeds; with force, if it is not unconnected after the attempt |
| `SlowSenders.SlowMeans` | src/util/tc_epoll_server.cpp:1055-1110 | a connection is dropped as slow only after checks over at least 15 seconds, all over the limit, in three stretches in each of which at least one and at most iBackPacketBuffMin bytes went out |
| `SlowSenders.AccumulatingMeans` | src/util/tc_epoll_server.cpp:1111-1137 | and as accumulating only after at least 60 such seconds with the backlog at twelve or more samples never smaller |
| `SlowSenders.RunReads` | src/util/tc_epoll_server.cpp:1055-1149 | at every moment the stored samples stand for consecutive stretches of at least 5 seconds each, all over the limit, up to now |
| `SlowSenders.StepKeeping` | src/util/tc_epoll_server.cpp:1059-1107 | a check on a trickling peer that does not drop it leaves the window within its time limits |
| `SlowSenders.TrickleIsDropped` | src/util/tc_epoll_server.cpp:1059-1110 | a peer that takes a little at every check, all over the limit and at most gap seconds apart, and no more than the minimum in all, is dropped as slow by the time the checks reach over 15 seconds and four gaps |
| `SlowSenders.SwellingIsDropped` | src/util/tc_epoll_server.cpp:1055-1137 | a peer whose backlog does not shrink from check to check is dropped, as slow or as accumulating, by the time the checks reach over 60 seconds and 22 gaps |
| `SlowSenders.StalledIsDroppedIff` | src/util/tc_epoll_server.cpp:1055-1149 | a peer that takes no byte any more, in any state of the window, is dropped if and only if something went out since the last sample and the one sample still to come, at the first check 5 seconds on if all until then are over the limit, is bad |
| `SlowSenders.StalledRun` | src/util/tc_epoll_server.cpp:1055-1149 | the same over runs: whatever the connection did before the peer stopped |
| `SlowSenders.StalledIsNotDropped` | src/util/tc_epoll_server.cpp:1062-1069 | a peer that takes no byte from the start is never dropped |
| `SlowSenders.OneByteIsEnough` | src/util/tc_epoll_server.cpp:1062-1069 | nor is one that has taken one byte before it stops |
| `SlowSenders.Connection.Send` | src/util/tc_epoll_server.cpp:1195-1210 | a packet is counted and, unless it is empty, queued behind the others; what stays in the adapter's count for good grows by one for an empty packet or a closed socket, and by the packets not wholly sent when the connection is dropped, and by nothing else |
| `SlowSenders.GoesUpTo` | src/util/tc_epoll_server.cpp:994-1047 | packets go out as long as the socket takes each whole; the first that it does not take whole is the last, and an error at it fails the call |
| `SlowSenders.Connection.SendChunks` | src/util/tc_epoll_server.cpp:994-1047 | the sending loop puts exactly what the socket takes of the backlog on the wire, in order, and exactly the packets that have gone out whole leave the adapter's count; a closed socket takes nothing |
| `SlowSenders.Connection.SendBuffer` | src/util/tc_epoll_server.cpp:984-1151 | the verdict is that of the window; nothing is lost or reordered unless the connection is dropped, and then exactly the packets not wholly sent stay in the adapter's count |
| `SlowSenders.Connection.Close` | src/util/tc_epoll_server.cpp:748-758 | afterwards the adapter's count holds of this connection exactly the packets that were counted and not queued, dropped, or sent on the closed socket |
| `SlowSenders.Connection.CheckWindow` | src/util/tc_epoll_server.cpp:1059-1149 | the window's step and verdict |
| `SlowSenders.Connection.IsSlow` | src/util/tc_epoll_server.cpp:1081-1093 | true exactly when the last three samples are at most the minimum |
| `SlowSenders.Connection.IsGrowing` | src/util/tc_epoll_server.cpp:1112-1124 | true exactly when no sample is below the one before it |
| `RecvCounters.StepKeeps` | src/util/tc_epoll_server.cpp:423-459 | every atomic step of a network thread or handler keeps the counter equal to what is queued and what is between counter and queue, and keeps the bound |
| `RecvCounters.RunKeeps` | src/util/tc_epoll_server.cpp:423-526 | so does every interleaving |
| `RecvCounters.CounterInEveryRun` | src/util/tc_epoll_server.cpp:423-526 | in every run with any number of threads the counter is at least what is queued, so never wraps, equals it at rest, and is at most the capacity plus one for each network thread when no close notification is about |
| `RecvCounters.TakeIn` | src/util/tc_epoll_server.cpp:423-459 | a packet taken in is counted and queued, marked if and only if the counter was over four fifths of the capacity |
| `RecvCounters.CloseIsTakenIn` | src/util/tc_epoll_server.cpp:423-459 | and so is the notification of a close, whatever the counter is |
| `RecvCounters.BoundReached` | src/util/tc_epoll_server.cpp:423-526 | for every capacity and number of threads there is a run from the start in which the counter reaches that bound: all threads test before any of them counts |
| `Timers.PostKeepsIff` | src/client/util/tc_timer.cpp:66-79 | post keeps the maps and the record of postings in agreement if and only if the event is not in the timer and its id is not in the batch being fired |
| `Timers.EraseKeeps` | src/client/util/tc_timer.cpp:46-64 | erase keeps them in agreement, also for an event in the batch |
| `Timers.TakeKeeps` | src/client/util/tc_timer.cpp:124-135 | taking the first set out keeps them in agreement, and it is not empty |
| `Timers.FireOneKeeps` | src/client/util/tc_timer.cpp:81-108 | looking up one id keeps them in agreement, and an event is fired only when its time has come |
| `Timers.BatchIsFired` | src/client/util/tc_timer.cpp:81-108 | going through a batch undisturbed fires each event of it that is still posted, once, and no other |
| `Timers.EntryIsFiredIff` | src/client/util/tc_timer.cpp:81-147 | in whatever state, taking a time and firing its batch fires exactly the posted events with an entry under that time, leftover entries included |
| `Timers.DueIsFired` | src/client/util/tc_timer.cpp:81-147 | taking a time that has come and firing its batch fires exactly the events of that time, each once |
| `Timers.NothingDue` | src/client/util/tc_timer.cpp:126-141 | when the first time has not come no waiting event is due |
| `Timers.EveryRunKeepsInv` | src/client/util/tc_timer.cpp:46-159 | under every interleaving of post, erase and the timer thread each event waits in exactly one place, the set of its time or the unvisited batch |
| `Timers.AtMostOncePerPost` | src/client/util/tc_timer.cpp:46-159 | in every run each posting has been fired once, or erased once, or is still there |
| `Timers.PostedWaits` | src/client/util/tc_timer.cpp:66-79 | a new event waits under its time and no other, and the others are where they were |
| `Timers.ErasedIsGone` | src/client/util/tc_timer.cpp:46-64 | an erased event is not in the timer, nor is an entry for it outside the batch, and the others are where they were |
| `Timers.ErasedIsNotFired` | src/client/util/tc_timer.cpp:46-108 | after erase(), before the event is looked up, it is not fired in any run unless it is posted again |
| `Timers.PostedIsFiredEarlyIff` | src/client/util/tc_timer.cpp:66-108 | a new event is fired by the batch in flight, once, if and only if its id is in it, and before its time if and only if that time is also later than the batch's; its entry then stays behind |
| `Timers.ReusedAddressFiresEarly` | src/client/util/tc_timer.cpp:66-108 | for example: an event erased out of the batch and a new one at its address that is due later: the new one is fired at once |
| `Timers.Timer.PostEvent` | src/client/util/tc_timer.cpp:66-79 | the maps change as in the model |
| `Timers.Timer.EraseEvent` | src/client/util/tc_timer.cpp:46-64 | the maps change as in the model |
| `Timers.Timer.TakeBatch` | src/client/util/tc_timer.cpp:116-147 | takes a first set whose time has come, in some order, and otherwise leaves all as it was because nothing is due |
| `Timers.Timer.FireNext` | src/client/util/tc_timer.cpp:81-108 | hands the event to the pool exactly when it is still posted |
| `RoundRobin.EndpointManager.UpdateEndpoints` | src/client/EndpointManager.cpp:202-259 | the active nodes are those of the list in its order, a node known before is the same one, and the polling position stays |
| `RoundRobin.EndpointManager.AddEndpoints` | src/client/EndpointManager.cpp:168-200 | exactly the nodes not known before are active from then on, behind the others |
| `RoundRobin.EndpointManager.GetNextValidProxy` | src/client/EndpointManager.cpp:299-342 | the first node cyclically after the last position that reports active, after polling exactly those up to it; if none does, after polling each once, one without connection trouble if there is one; drawn from those by the random number, and it is asked again with force exactly then |
| `RoundRobin.Nearer` | src/client/EndpointManager.cpp:309-319 | each choice is the given active node or strictly nearer to it |
| `RoundRobin.NoStarvation` | src/client/EndpointManager.cpp:299-342 | a node that is always active is chosen at least once in any n consecutive calls, also when the last position lies beyond the end |
| `RoundRobin.AllSeen` | src/client/EndpointManager.cpp:309-324 | going round once passes every node |
| `Endpoints.DigitsValue` | src/include/util/tc_clientsocket.h:326-331 | a printed number has its value |
| `Endpoints.ScanDec` | src/util/tc_clientsocket.cpp:151-158 | a printed number that is not negative is read back whole |
| `Endpoints.PrintedWords` | src/include/util/tc_clientsocket.h:316-333 | a printed address falls apart into exactly its options and arguments |
| `Endpoints.OptionsRead` | src/util/tc_clientsocket.cpp:109-222 | the option loop reads printed options back, up to the first negative number |
| `Endpoints.ParsedIsCanonical` | src/util/tc_clientsocket.cpp:68-252 | what parse makes of any text from a default address is in range, clamped, with a host that is one word |
| `Endpoints.PrintedIsParsed` | src/util/tc_clientsocket.cpp:68-252 | a parsed address, printed and parsed into any address, is itself if and only if timeout, grid and qos are not negative and weight is at least -1; otherwise the text is refused |
| `Endpoints.ParsePrintParse` | src/util/tc_clientsocket.cpp:68-252 | the same, for every text that parses |
| `Endpoints.PlainGoesRound` | src/util/tc_clientsocket.cpp:68-252 | every text without vertical tabs and form feeds goes round |
| `Endpoints.NegativeDoesNot` | src/util/tc_clientsocket.cpp:159-167 | a negative timeout behind a vertical tab is parsed and then printed in a form that is refused |
| `Endpoints.Endpoint.ParseText` | src/util/tc_clientsocket.cpp:68-252 | the index-walking parser accepts and produces what the words and options say |
| `Endpoints.Endpoint.ParseOptions` | src/util/tc_clientsocket.cpp:107-222 | the loop over the options reads all of them, or fails |
| `Endpoints.Endpoint.ParseOption` | src/util/tc_clientsocket.cpp:117-222 | one option with the next word as its argument, unless that starts with a dash |
| `EndpointTexts.PrintedText` | src/include/util/tc_clientsocket.h:316-333 | the text of an address, letter by letter: host, port and timeout always, the others unless they are at their default |
| `EndpointTexts.OptionsOfText` | src/util/tc_clientsocket.cpp:68-252 | a text of a host and numeric options sets what they say, in their order, over the defaults |
| `EndpointTexts.EachOptionSets` | src/util/tc_clientsocket.cpp:109-222 | each letter sets its own field |
| `EndpointTexts.DefaultsStay` | src/util/tc_clientsocket.cpp:68-252 | an address without options has grid, qos, weight, weight type and authentication at their defaults |
| `EndpointTexts.WeightIsClamped` | src/util/tc_clientsocket.cpp:228-236 | with a weight type a weight is at most 100, and 100 if there is none |
| `EndpointTexts.HostStays` | src/util/tc_clientsocket.cpp:228-252 | without a host the one there was stays, and there has to be one |
| `EndpointTexts.TooBigIsRefused` | src/util/tc_clientsocket.cpp:117-222 | a number too big for its option makes the text no address |
| `EndpointTexts.WordsApart` | src/util/tc_clientsocket.cpp:68-110 | words are what stands between blanks, tabs and line ends |
| `MatchPeriods.MatchPeriod` | src/util/tc_common.cpp:726-773 | the loop that never goes back decides as the greedy reading; the empty text and the empty pattern as documented |
| `MatchPeriods.PlainPattern` | src/util/tc_common.cpp:738-741 | without a star a pattern matches itself only |
| `MatchPeriods.GreedyIsRight` | src/util/tc_common.cpp:743-772 | where every star is followed by a dot or ends the pattern, the greedy reading is the meaning of the pattern |
| `MatchPeriods.BadStarMatchesNothing` | src/util/tc_common.cpp:743-772 | a pattern with any other star matches no text at all |
| `MatchPeriods.SampleDenoted` | src/util/tc_common.cpp:743-772 | though every pattern means some text |
| `MatchPeriods.LoopIsRightIff` | src/util/tc_common.cpp:726-773 | for a pattern that is not empty the loop is right on every text if and only if each star is followed by a dot or ends it |

## Left out

- Sockets, epoll, DNS, pipes, logging and thread start-up: only the outcomes of their calls are inputs.
- The fcontext switching code, stack allocation and `destroy()` of the scheduler: a switch is one step.
- Locks: each critical section is one atomic step, and in the receive counter each atomic operation is.
- Parallel mode of the adapter, one-way calls and push messages: they match responses by id.
- Switching between serial and parallel mode while requests are pending.
- The callbacks and thread notifications of `finishInvoke(msg)`; only the outcome is recorded, and whether the breaker then closes the connection is an input of the serial model.
- Field encoding of requests and responses: packet bodies are bytes.
- Framing.Connection.ParseProtocol: without the authentication wrapper, which can swallow a complete packet, and the header filter callback; every complete packet is handed on.
- HttpChunked.HttpResponse.IncrementDecode: header parsing is a parameter, so what the header lines mean is not modelled; bodies that are not chunked are modelled but depend on the cut. Header text is free of NUL, int sums wrap, and no buffer has 2^63 bytes. A header or a size line of 2^32 bytes or more, where moveHeader is not exact, is not covered.
- HttpChunked.HttpResponse.ReadHead: a header of 2^32 bytes or more is not covered.
- HttpChunked.HttpResponse.ReadChunks: a size line of 2^32 - 2 bytes or more is not covered.
- HttpChunked.HttpResponse.NextChunk: a size line of 2^32 - 2 bytes or more is not covered.
- HttpChunked.DoRequest: a header or a size line of 2^32 - 2 bytes or more is not covered.
- HttpChunked.ChunksPayload: how a size line is read is a parameter; the plain hexadecimal reader is proved to be one it accepts.
- NetworkBuffers.NetworkBuffer.AddBuffer: a chunk object that is in the list already is not added a second time; the list would then share its read position.
- Framing.Connection.RecvTcp: the header length is below 2^32 and what is buffered is parsed by the built-in length-prefixed protocols of one, two and four bytes only.
- ConnectionLists.ConnectionList.CheckTimeout: without the second pass over empty connections, which advances an iterator after erasing its entry.
- ConnectionLists.ConnectionList.GetUniqId: only while a slot is free; the source takes the front of the list unasked.
- ConnectionLists.ConnectionList.Get: an id with this list's magic number and a slot beyond the table is not covered; the source reads past the array there.
- Breakers.Breaker.FinishInvoke: counters do not wrap at 2^32, and the failure ratio is a real number.
- CoroutineScheduling.CoroutineScheduler.Init: only on a scheduler that has not created coroutines; a second call is not covered.
- CoroutineScheduling.CoroutineScheduler.Put: only ids of created coroutines; for any other the source queues the id and asserts when it drains the queue.
- AdapterProxies.AdapterProxy.DoResponse: one complete packet; the reads, the loop over several packets of one read and decode errors are not modelled.
- AdapterProxies.AdapterProxy.FinishInvokeSerial: the assertion on the type of the call, since one-way calls are left out.
- SlowSenders.Connection.SendBuffer: UDP, and the chunked buffer itself, which is taken as the list of its unread parts; a closed socket is taken to refuse every byte.
- RecvCounters.CounterInEveryRun: merged handler and network threads, which do not queue; several queues are one from which handlers take anywhere.
- Timers.Timer.TakeBatch: waiting on the condition variable, and crontab times, whose computation is not part of this model.
- RoundRobin.EndpointManager.GetNextValidProxy: what each node reports when polled is an input, and what the forced check of the node chosen does is the breaker's; the sorted list of registered nodes is left out.
- Endpoints.Endpoint.ParseText: which hosts are IPv6 addresses is a parameter; on failure the fields assigned so far are not specified.
- TC_Cron, TC_LoopQueue, HTTP cookies and URLs, tup attributes, getters, setters and property maps.
