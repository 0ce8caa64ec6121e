# setka: the asynchronous DNS lookup, verified

A Dafny model of the DNS resolver of the setka networking library (`src/setka/dns_resolver.cpp`) and of its address
text (`src/setka/address.cpp`), with proofs of what the lookup promises its callers. Check it with
`dafny verify dfyconfig.toml`.

## What is modelled

- `Wire`: the query writer, the host-name decoder and the reply parser, byte for byte, against a reference printer of
  answers (sections 3.1 and 4.1 of RFC 1035, section 2.2 of RFC 3596). The writer fills an array through the source's
  loops; the parser advances the source's cursor.
- `Timers`: the two multimaps of 32-bit deadlines and their swap, against one queue of unbounded deadlines.
- `Ids`: the choice of a free query id over the ordered keys of `idMap`.
- `Lookups`: the engine as its callers see it, an event machine whose runs are logs: exactly-once endings,
  conservation, no lost wake-up, the AAAA-to-A fallback.
- `Indexes`, `Events`, `Engine`: the class `LookupThread` with the source's fields, changed in place. `Valid()` says
  that `resolversMap`, `idMap`, both deadline maps and `sendList` agree entry by entry with each other and with the
  event machine, and that the machine's state is where the log of events leads; so every theorem of `Lookups` holds
  of the class. `Exact()` adds that the two deadline maps are the single unbounded queue and that the half-range flag
  fits the clock of the last poll. `Turn` is one turn of the loop of `run`, `Run` the loop, and `Lifetime` a thread from
  its first request on. User threads act during callbacks and waits through scripts of arbitrary `resolve` and `cancel`
  calls.
- `Protocol`: the hand-off of `dns::mutex`, the thread's `mutex` and `completedMutex`, lock operation by lock operation,
  for one lookup thread and any number of callers; the statements are about every interleaving.
- `AddressText`: `address(const char*)` with its buffers, its backward port loops and `ip::to_string`.

## What does not hold, and exactly when it does

Where the code misses an assertion of its own or its documentation, the model follows the code.

- The writer's length assertion (dns_resolver.cpp:249) holds iff the name is not empty and does not end in a dot:
  `Wire.EncodedLength`, `Wire.FillQuery`.
- A written name decodes to itself iff it is empty or has no empty label (`Wire.NameRoundTrip`); a decoded name writes
  back to the same bytes iff no label holds a dot (`Wire.BytesRoundTrip`).
- The question's type and class are read without a length check: bytes that were not received are read iff the header is
  good, the decoded name matches, and the type, or the class after a matching type, is cut off (`Wire.CutOffQuestion`).
- A datagram is taken for a name by its decoded host. An accepted reply spells the name iff its own name decodes, which every
  non-empty name guarantees (`Wire.AcceptedReply`, `Wire.SpelledExactly`). The empty name, which `resolve` accepts, matches
  every datagram whose name does not decode, and an address can be reported from one (`Wire.UnspelledExists`).
- An echo of the emitted question is recognised iff the name is empty or well formed (`Wire.EchoRecognised`): `resolve`
  accepts a name that ends in a dot or has an empty label, but such a request never gets its reply.
- The wrap test is exact iff polls are at most 2^31 - 1 ms apart (`Timers.WrapBoundIsTight`).
- `resolve` reads the clock itself. The deadline maps stay exact iff it does so in the clock epoch of the thread's last
  poll (`Timers.AddExact`, `Engine.LookupThread.Resolve`); a request times out at the next poll iff its deadline has come
  or it was resolved in another epoch, however far its deadline and whatever else is active (`Timers.PrematureTimeout`).
- The assertion that `timeMap1` is not empty (dns_resolver.cpp:857) fails iff every remaining deadline lies past the next
  wrap (`Timers.CurrentEmpty`, `Engine.LookupThread.Turn`, where `NoDeadline` stands for the failure).
- The assertion that something was received (dns_resolver.cpp:712) fails iff the socket yields zero bytes, as it does for an
  empty datagram; nothing changes then (`Engine.LookupThread.Turn`, `Engine.LookupThread.OnDatagram`).
- The assertion that a writable socket has something to send (dns_resolver.cpp:775) fails iff a write event meets an empty
  list (`Engine.LookupThread.WritePhase`), which happens after the only unsent request is cancelled or ended, or when a
  `StartSending` message runs after that (`Lookups.ArmedIdleStep`, `Lookups.ArmedForNothing`).
- The assertion that a request that falls back to type A has been sent (dns_resolver.cpp:736) fails iff the reply is for a
  request that still waits in the send list (`Engine.LookupThread.OnDatagram`; a turn then ends as `RepliedUnsent`).
  Requeueing all the same keeps the send list in order iff the request had been sent (`Indexes.RequeueExactlyWhenSent`).
- The mutexes deadlock iff the thread is in a callback and a `cancel` waits for that callback, being the callback's own call
  or holding the mutex the callback asks for (`Protocol.DeadlockExactly`); so never if callbacks keep out of the library
  (`Protocol.NoReentryNoDeadlock`), and always when a callback cancels with nothing to remove
  (`Protocol.CallbackCancelExactly`).
- After `cancel` returned, a callback of an earlier request is running or sure to run iff it is the one that was under way
  when `cancel` removed another request of the same resolver (`Protocol.QuietExactly`). A caller rules that out by not
  resolving again while the callback is under way (`Protocol.CancelIsQuiet`). The contract of `cancel`
  (dns_resolver.hpp:86-96) excepts only a resolve from within the callback; one from another thread does it too
  (`Protocol.NoisyCancel`).
- A request can be left with a thread that is gone: the step that strands it is the thread leaving on `quitFlag`, or
  `resolve` inserting after the thread left in the gap between lines 953 and 998 (`Protocol.StrandsExactly`).
- The documentation replaces an invalid DNS server address (dns_resolver.hpp:72-73); the code replaces every address whose
  last quad is zero (`Indexes.DocumentedServerExactly`).
- `to_string` prints IPv6 quads in the reverse of the documented order (`AddressText.DocumentedOrderExactly`), and an address
  without a port is accepted with port 0 iff its host is, although address.hpp:258-264 calls it invalid
  (`AddressText.PortlessExactly`).

## What is assumed of the environment

- Reading bytes that were not received yields some result and no crash: `stray` in `Engine.Readable` is any result the
  answers can have.
- The socket reports writability only while it is armed for writing.
- Claims about true deadlines need polls at most 2^31 - 1 ms apart and `resolve` in the clock epoch of the last poll,
  as `Calm` spells out; everything else about `Turn` and `Run` holds without that.
- Callbacks return. Each window of user activity is finite.
- `utki::span::overlaps(p)` holds iff p points at an element of the span; utki is not part of this model.

## Model

| member | source | states |
|---|---|---|
| Wire.EncodedLength | src/setka/dns_resolver.cpp:175-249 | a written name takes length + 2 bytes, the assertion at 249, iff it is not empty and does not end in a dot; it never takes more |
| Wire.WriteLabel | src/setka/dns_resolver.cpp:216-233 | one turn of the label loop appends exactly the next part of the encoding and stays inside the buffer |
| Wire.WriteName | src/setka/dns_resolver.cpp:215-239 | the label loop and the zero byte write the encoding after what was there, for every name of at most 253 bytes |
| Wire.PutHeader | src/setka/dns_resolver.cpp:191-213 | the twelve header bytes of a query |
| Wire.FillQuery | src/setka/dns_resolver.cpp:172-249 | the 512-byte buffer holds the whole query, at most 271 bytes; 18 + name length iff the name is not empty and does not end in a dot |
| Wire.LiteralQuery | src/setka/dns_resolver.cpp:189-246 | a whole query, byte by byte |
| Wire.ParseHostName | src/setka/dns_resolver.cpp:36-66 | the decoder loop yields host and cursor of the recursive label reader, on arbitrary bytes |
| Wire.ReadConsumes | src/setka/dns_resolver.cpp:39-62 | on arbitrary bytes, successful decoding consumed exactly the wire form of the labels it read |
| Wire.ReadStops | src/setka/dns_resolver.cpp:39-62 | where failed decoding stops and what precedes; it reports no host |
| Wire.NameRoundTrip | src/setka/dns_resolver.cpp:36-66 | a written name decodes to itself with the cursor past its zero byte iff it is empty or well formed |
| Wire.WellFormedExactly | src/setka/dns_resolver.cpp:216-233 | well formed means not empty, with no dot first, last or next to another |
| Wire.ReEncode | src/setka/dns_resolver.cpp:216-239 | writing the joined labels gives their wire form iff no label holds a dot |
| Wire.BytesRoundTrip | src/setka/dns_resolver.cpp:36-66 | writing a decoded name gives the consumed bytes iff no label holds a dot |
| Wire.AnswerAt | src/setka/dns_resolver.cpp:396-477 | a turn of the answer loop that goes on advances the cursor by 11 bytes or more and stays inside the datagram |
| Wire.ParseAnswer | src/setka/dns_resolver.cpp:397-477 | the body of the answer loop, check by check, is that turn; all reads are in bounds |
| Wire.ParseAnswers | src/setka/dns_resolver.cpp:395-480 | the answer loop is the recursion over turns |
| Wire.ParseReplyFromDNS | src/setka/dns_resolver.cpp:290-481 | the parser returns the specified result for every datagram, with over-reads of the question made explicit |
| Wire.ParsePrinted | src/setka/dns_resolver.cpp:395-480 | printed answers parse to the first of the requested type, or to dns_error, whatever follows them |
| Wire.ParsedIsPrinted | src/setka/dns_resolver.cpp:395-480 | conversely, whenever an address is reported, the bytes are printed answers whose first match it is |
| Wire.EchoRecognised | src/setka/dns_resolver.cpp:723-726 | a response that echoes the question of a name is taken for that name iff it is empty or well formed |
| Wire.EndToEnd | src/setka/dns_resolver.cpp:172-481 | for every such name, a response that echoes the emitted question and carries any answers parses to the first match; not_found if it announces none |
| Wire.AddressExactly | src/setka/dns_resolver.cpp:444-472 | the address taken from an answer is the one its first 4 or 16 bytes spell, most significant byte first, whatever follows; shorter data is an error |
| Wire.ReplyExactly | src/setka/dns_resolver.cpp:395-480 | what a response stands for, in the bytes of its first answer of the requested type |
| Wire.ReportedExactly | src/setka/dns_resolver.cpp:290-481 | for arbitrary bytes: an address is reported iff the datagram is a response without error to one question of that name, type and class, holding answers the first of which of that type carries it |
| Wire.NotFoundExactly | src/setka/dns_resolver.cpp:322-350 | for arbitrary bytes: not_found iff response code 3, or no error, one question and no answers |
| Wire.AcceptedReply | src/setka/dns_resolver.cpp:290-481 | for every name: an address is reported only for a response to one question of that type and class, followed by answers with that first match; the question spells the name if its name decodes, as it does for every non-empty name |
| Wire.SpelledExactly | src/setka/dns_resolver.cpp:362-371 | a datagram that is taken for a name spells it iff its own name decodes |
| Wire.AcceptedUnspelled | src/setka/dns_resolver.cpp:362-371 | a family of datagrams that report an address to the empty name with no name spelled |
| Wire.UnspelledExists | src/setka/dns_resolver.cpp:362-371 | for every IPv6 address one of them, of 512 bytes, that reports it |
| Wire.CutOffQuestion | src/setka/dns_resolver.cpp:333-391 | for every datagram: unreceived bytes are read iff the header is good, the decoded name matches, and the type, or the class after a matching type, is cut off |
| Wire.CutOffEcho | src/setka/dns_resolver.cpp:373-391 | for a reply that spells the name as queries do, the place where that happens |
| Wire.CutOffForEmptyName | src/setka/dns_resolver.cpp:362-391 | a 13-byte reply to the empty name, which resolve accepts, that makes it happen |
| Wire.NoOverread | src/setka/dns_resolver.cpp:395-478 | after a complete question the answer loop never leaves the datagram, for arbitrary bytes and counts |
| Wire.AnswersFit | src/setka/dns_resolver.cpp:395-478 | announcing more answers than fit changes nothing |
| Timers.WrapExact | src/setka/dns_resolver.cpp:819-837 | for polls at most 2^31 - 1 ms apart the test fires iff the clock passed a multiple of 2^32, and then one |
| Timers.WrapBoundIsTight | src/setka/dns_resolver.cpp:820-823 | no larger gap between polls will do |
| Timers.SleepLeavesRoom | src/setka/dns_resolver.cpp:866-867 | the clamp to (2^32 - 1) / 4 leaves 2^30 ms between sleep and next poll |
| Timers.EraseInsert | src/setka/dns_resolver.cpp:1028-1035 | erasing the node just inserted restores the map |
| Timers.EraseHas | src/setka/dns_resolver.cpp:521-521 | erasing one node leaves every other node where its iterator says |
| Timers.DeadlineSplit | src/setka/dns_resolver.cpp:1010-1019 | the 32-bit sum and its overflow test give ticks and epoch of the unbounded deadline |
| Timers.AddInEpoch | src/setka/dns_resolver.cpp:1010-1021 | resolve in the epoch of the last poll inserts the unbounded deadline into the single queue |
| Timers.AddExact | src/setka/dns_resolver.cpp:1010-1021 | and only then |
| Timers.EraseRefines | src/setka/dns_resolver.cpp:521-521 | erasing from the map a request stands in erases its unbounded deadline |
| Timers.SwapRefines | src/setka/dns_resolver.cpp:833-834 | swapping after the drain moves both maps to the next epoch |
| Timers.PollRefines | src/setka/dns_resolver.cpp:819-850 | one poll of the two maps times out the same requests in the same order as the single queue, those due, and leaves maps that refine the rest |
| Timers.RefinesOnce | src/setka/dns_resolver.cpp:833-834 | only one pair of maps refines a queue |
| Timers.AllLater | src/setka/dns_resolver.cpp:839-842 | once the head of the current map lies after now, so does every deadline of the queue |
| Timers.CurrentEmpty | src/setka/dns_resolver.cpp:857-857 | timeMap1 is empty iff every deadline lies past the next wrap |
| Timers.LonePastWrap | src/setka/dns_resolver.cpp:857-857 | one such request makes the assertion fail |
| Timers.PrematureTimeout | src/setka/dns_resolver.cpp:819-850 | whatever the maps hold, a new request times out at the next poll iff its deadline has come or it was resolved in another clock epoch than the last poll |
| Timers.SleepInTime | src/setka/dns_resolver.cpp:863-867 | the sleep is positive and ends no later than the earliest deadline |
| Timers.SleepExactly | src/setka/dns_resolver.cpp:863-867 | the sleep lasts to the head of timeMap1 or is (2^32 - 1) / 4 |
| Ids.AllTaken | src/setka/dns_resolver.cpp:158-166 | 65536 ascending ids contain every id: the counting behind the exception |
| Ids.FindFreeId | src/setka/dns_resolver.cpp:145-167 | throws iff all 65536 ids are taken, else returns a free one, by the source's choice |
| Indexes.DocumentedServerExactly | src/setka/dns_resolver.cpp:779-782 | when the replaced server address is the documented one |
| Indexes.InvalidExactly | src/setka/address.hpp:160-185 | the invalid addresses and the IPv4 ones |
| Indexes.IdCount | src/setka/dns_resolver.cpp:1000-1007 | as many ids are taken as requests are active |
| Indexes.InMapRemove | src/setka/dns_resolver.cpp:521-521 | removal keeps a deadline map sorted, duplicate free and in step with every stored position |
| Indexes.InMapAdd | src/setka/dns_resolver.cpp:1015-1021 | so does insertion |
| Indexes.SendsRemove | src/setka/dns_resolver.cpp:517-519 | removal by sendIter keeps a request in the send list iff its sendIter is not end |
| Indexes.RequeueExactlyWhenSent | src/setka/dns_resolver.cpp:735-742 | the requeue keeps that iff the request had been sent |
| Lookups.RunInvariant | src/setka/dns_resolver.cpp:695-890 | in every state of every run ids are distinct, unsent requests are active and queued once, and no wake-up is lost |
| Lookups.EndsOnce | src/setka/dns_resolver.cpp:503-526 | over any run a request ended exactly once if it is accepted and no longer active, else never |
| Lookups.Conservation | src/setka/dns_resolver.cpp:503-526 | accepted = active + in callback + completed + cancelled at every step |
| Lookups.ArmedIdleStep | src/setka/dns_resolver.cpp:770-775 | the only steps after which a write event finds nothing to send |
| Lookups.ArmedForNothing | src/setka/dns_resolver.cpp:775-775 | a run of three events after which the assertion fails |
| Lookups.StepRank | src/setka/dns_resolver.cpp:729-791 | a request's rank drops by one with each of its own sends and requeues and is moved by nothing else |
| Lookups.FallbackBound | src/setka/dns_resolver.cpp:729-752 | over any run a request is sent and queued at most twice, and asks for A iff it was requeued |
| Lookups.NotFoundAfterFallback | src/setka/dns_resolver.cpp:729-752 | not_found is reported only after the request moved to type A |
| Events.DropRequeued | src/setka/dns_resolver.cpp:733-747 | a failed requeue ends in the state a plain removal would leave |
| Events.Answered | src/setka/dns_resolver.cpp:706-755 | a response that echoes the question of an active request is taken for it; if its first answer of the requested type carries an address, the request ends with it |
| Events.FallbackExactly | src/setka/dns_resolver.cpp:729-752 | for arbitrary bytes: the fallback starts iff the datagram says there is no record and the request is an AAAA one; the same datagram ends a type A request with not_found |
| Events.OpsCounts | src/setka/dns_resolver.cpp:1068-1082 | users cancel no more than they call cancel, and an exiting thread accepts nothing |
| Events.CallbackCounts | src/setka/dns_resolver.cpp:266-276 | what a callback leaves in the log: its begin, the calls of users, its end, and nothing else |
| Events.FailCounts | src/setka/dns_resolver.cpp:530-542 | after a failure every request that was active ended by an error callback or by a cancel of its user |
| Engine.LookupThread.constructor | src/setka/dns_resolver.cpp:484-490 | a new thread object is valid, exiting, and empty in every container and in the unbounded queue |
| Engine.LookupThread.Drained | src/setka/dns_resolver.cpp:492-498 | with no request left every index is empty: the destructor's assertions |
| Engine.LookupThread.NoLostWakeup | src/setka/dns_resolver.cpp:139-141 | while anything waits to be sent, the socket is armed or a StartSending message is on its way |
| Engine.LookupThread.Accounted | src/setka/dns_resolver.cpp:503-526 | of the object in any valid state: accepted = active + completed + cancelled, as many ids as requests, each request ended once iff gone |
| Engine.LookupThread.RemoveIndexes | src/setka/dns_resolver.cpp:503-526 | erasing one request from each container by its stored position leaves containers that agree |
| Engine.LookupThread.RemoveResolver | src/setka/dns_resolver.cpp:503-526 | removes the request from every index, keeps agreement and exact deadlines; unknown resolvers change nothing |
| Engine.LookupThread.AddIndexes | src/setka/dns_resolver.cpp:1000-1040 | so does inserting one with a free id, which then stood in no container before |
| Engine.LookupThread.InsertTimeAndSend | src/setka/dns_resolver.cpp:1010-1036 | a failure at either stage, or at the main map, restores both deadline maps and the send list |
| Engine.LookupThread.InsertIndexes | src/setka/dns_resolver.cpp:1000-1041 | and the id map |
| Engine.LookupThread.FindFreeId | src/setka/dns_resolver.cpp:145-167 | a free id of the object's idMap, none iff all are taken |
| Engine.LookupThread.AddExactly | src/setka/dns_resolver.cpp:1010-1021 | the maps stay exact iff the clock is in the epoch of the last poll |
| Engine.LookupThread.Enlist | src/setka/dns_resolver.cpp:1000-1050 | all insertions keep the indexes in agreement, or change nothing |
| Engine.LookupThread.AddRequest | src/setka/dns_resolver.cpp:957-1050 | accepts with a fresh serial number and the true deadline, or changes nothing |
| Engine.LookupThread.Resolve | src/setka/dns_resolver.cpp:920-1050 | which of the six replies is given; any but success leaves every index as it was |
| Engine.LookupThread.Launch | src/setka/dns_resolver.cpp:1053-1058 | the started thread is exact for the clock resolve read |
| Engine.LookupThread.ResolveFirst | src/setka/dns_resolver.cpp:920-1058 | resolve on a new thread object starts it, with exact timers and the request as asked for, exactly on success |
| Engine.LookupThread.StopIfIdle | src/setka/dns_resolver.cpp:1079-1082 | quitFlag is set and a message sent iff nothing is left |
| Engine.LookupThread.Cancel | src/setka/dns_resolver.cpp:1068-1082 | true iff the request was active, and then it is removed and logged; false changes no request; the thread is told to quit iff nothing is left |
| Engine.LookupThread.RunUserOps | src/setka/dns_resolver.cpp:920-1082 | any calls of users leave exactly their own accepted and cancelled requests in the log, in order |
| Engine.LookupThread.CallCallback | src/setka/dns_resolver.cpp:266-276 | the callback begins with its result and ends; only user activity happens in between |
| Engine.LookupThread.Complete | src/setka/dns_resolver.cpp:749-751 | removal followed by the callback with the given result |
| Engine.LookupThread.TurnToA | src/setka/dns_resolver.cpp:733-733 | only the record type changes, and every index still agrees |
| Engine.LookupThread.PushSend | src/setka/dns_resolver.cpp:738-739 | the request joins the end of the send list and knows it |
| Engine.LookupThread.QueueAgain | src/setka/dns_resolver.cpp:733-742 | what the requeue leaves, whether or not it throws |
| Engine.LookupThread.ArmAndLog | src/setka/dns_resolver.cpp:740-742 | the socket is armed if the request is alone in the list; a wake-up is never lost |
| Engine.LookupThread.Fallback | src/setka/dns_resolver.cpp:729-747 | the request is queued as type A, or ends in an error if queueing throws |
| Engine.LookupThread.OnReply | src/setka/dns_resolver.cpp:729-752 | a parsed reply ends its request with the result, or moves it to type A |
| Engine.LookupThread.OnDatagram | src/setka/dns_resolver.cpp:711-755 | for every datagram: one that is short, of an inactive id or of another name changes nothing at all; any other touches only its own request; the assertion at 736 fails iff a fallback is due to a request still unsent |
| Engine.LookupThread.RemoveAllResolvers | src/setka/dns_resolver.cpp:530-542 | every active request ends by a callback with an error, unless its user cancels it meanwhile; the loop terminates |
| Engine.LookupThread.ChooseServer | src/setka/dns_resolver.cpp:779-782 | the server the request's queries go to |
| Engine.LookupThread.PopSent | src/setka/dns_resolver.cpp:790-791 | the sent request leaves the front of the list and its sendIter becomes end |
| Engine.LookupThread.SendFront | src/setka/dns_resolver.cpp:784-791 | what goes out is the query of the front request, to the server that request asks for |
| Engine.LookupThread.ServeFront | src/setka/dns_resolver.cpp:779-798 | the front request is sent, or ends in an error when no server is known |
| Engine.LookupThread.SendAll | src/setka/dns_resolver.cpp:777-799 | queries go out in queue order until the list is empty or the socket refuses; only requests without a server end, in an error; the loop terminates |
| Engine.LookupThread.Disarm | src/setka/dns_resolver.cpp:812-816 | read-only waiting once nothing is left to send |
| Engine.LookupThread.TimeOutHead | src/setka/dns_resolver.cpp:826-830 | the head of timeMap1 ends with a timeout |
| Engine.LookupThread.DrainCurrent | src/setka/dns_resolver.cpp:825-833 | after a wrap timeMap1 is drained, and no one in it is timed out before the true deadline |
| Engine.LookupThread.TimeOutDue | src/setka/dns_resolver.cpp:839-850 | everyone due is timed out, no one else |
| Engine.LookupThread.SwapMaps | src/setka/dns_resolver.cpp:834-834 | the swap enters the next clock epoch |
| Engine.LookupThread.DeadlinesAre | src/setka/dns_resolver.cpp:1015-1021 | the unbounded queue holds every active request at its true deadline, once, and nothing else |
| Engine.LookupThread.EarliestDue | src/setka/dns_resolver.cpp:839-867 | a bound on that queue is a bound on the deadlines of all active requests |
| Engine.LookupThread.AllLater | src/setka/dns_resolver.cpp:839-842 | once the head of timeMap1 lies after now, so does every deadline |
| Engine.LookupThread.SwapIfWrapped | src/setka/dns_resolver.cpp:819-837 | after a wrap the drained maps are swapped into the next epoch, and only requests past their deadline were timed out |
| Engine.LookupThread.OnTimers | src/setka/dns_resolver.cpp:819-850 | after a poll every remaining deadline is later than now and no request timed out early; with users at rest the poll is PollDue and PollAfter of the two maps, callbacks in that order |
| Engine.LookupThread.TurnEnds | src/setka/dns_resolver.cpp:857-867 | timeMap1 is empty iff all deadlines lie past the wrap; otherwise the sleep is positive and passes none |
| Engine.LookupThread.Fail | src/setka/dns_resolver.cpp:700-704 | a failed socket marks the thread exiting and ends every request so |
| Engine.LookupThread.ReadPhase | src/setka/dns_resolver.cpp:706-761 | what a readable socket adds to the log, for every datagram |
| Engine.LookupThread.WritePhase | src/setka/dns_resolver.cpp:770-817 | a writable socket sends as many queries as it takes, or else empties the list and is disarmed, or ends every request if it throws; the assertion at 775 fails iff nothing was there |
| Engine.LookupThread.PunctualAfter | src/setka/dns_resolver.cpp:852-867 | what the sleep computed from timeMap1 means for every active request |
| Engine.LookupThread.TimerPhase | src/setka/dns_resolver.cpp:819-867 | the thread exits iff nothing is left; otherwise it wakes in time for every deadline |
| Engine.LookupThread.Turn | src/setka/dns_resolver.cpp:695-867 | one turn keeps every invariant, for every datagram and socket behaviour; what each phase adds to the log and which assertions fail; with exact timers no request times out early, whether or not the thread exits |
| Engine.LookupThread.TurnTimeouts | src/setka/dns_resolver.cpp:695-867 | in a turn with exact timers only requests whose deadline has come time out, in whatever phase |
| Engine.LookupThread.TakeMessage | src/setka/dns_resolver.cpp:885-889 | taking a message from the queue loses no wake-up |
| Engine.LookupThread.RunMessage | src/setka/dns_resolver.cpp:139-141 | StartSending arms the socket |
| Engine.LookupThread.DrainMessages | src/setka/dns_resolver.cpp:885-889 | after a drained queue that held StartSending the socket is armed |
| Engine.LookupThread.OneRound | src/setka/dns_resolver.cpp:695-889 | for whatever a round meets: what its turn, the wait and the messages add to the log; the timers stay exact and no request times out early |
| Engine.LookupThread.Run | src/setka/dns_resolver.cpp:695-890 | every round is done as OneRound says, one after the other, until exit, quitFlag or a failing assertion; in calm rounds the timers stay exact and no request times out before its true deadline, to the end of the run |
| Engine.LookupThread.RoundAnswers | src/setka/dns_resolver.cpp:706-755 | in any round of a run, a datagram that answers an active request with an address ends it with that address |
| Engine.ResolveOn | src/setka/dns_resolver.cpp:920-1058 | resolve whatever dns::thread is: which reply, on which thread object, the request as asked for, and that a started thread is exact |
| Engine.Lifetime | src/setka/dns_resolver.cpp:492-1058 | the same from the creation of a thread by its first request, with the deadline asked for; when it exits the destructor finds every container empty |
| Protocol.RunLocks | src/setka/dns_resolver.cpp:266-276 | in every interleaving each mutex is held by exactly the one whose program counter says so |
| Protocol.SilenceLasts | src/setka/dns_resolver.cpp:1077-1090 | once no request of a resolver among the first n is active or pending, none ever is |
| Protocol.CancelIsQuiet | src/setka/dns_resolver.hpp:86-96 | in every interleaving, after cancel returned no earlier request is active; no earlier callback runs or will run after a false return, nor after a true one if no resolver is resolved again while its callback is under way |
| Protocol.QuietExactly | src/setka/dns_resolver.cpp:1068-1093 | over every run and returned cancel: an earlier callback is running or sure to iff it is the one that was under way when cancel removed another request of its resolver |
| Protocol.ActiveLasts | src/setka/dns_resolver.cpp:938-1040 | in every interleaving, despite the gap in resolve, an active request stays active under its number until its cancel removes it or the thread takes it up |
| Protocol.ResolveRefuses | src/setka/dns_resolver.cpp:940-953 | resolve goes on to insert iff its resolver is inactive and the thread not exiting |
| Protocol.QuitExactly | src/setka/dns_resolver.cpp:1079-1082 | quitFlag is set exactly by a cancel that leaves nothing active |
| Protocol.NoisyCancel | src/setka/dns_resolver.cpp:1068-1093 | a run in which cancel returns true while an earlier callback runs |
| Protocol.NotDeadlocked | src/setka/dns_resolver.cpp:266-276 | a state whose locks agree and whose callback is outside the library is not deadlocked |
| Protocol.ReentryDeadlocks | src/setka/dns_resolver.cpp:1068-1093 | a run with a re-entering callback that ends in a deadlock |
| Protocol.DeadlockExactly | src/setka/dns_resolver.cpp:1068-1093 | in every reachable state: deadlock iff the thread is in a callback and a cancel waits for it, either the callback's own or one that holds the mutex the callback asks for |
| Protocol.DeadlockLasts | src/setka/dns_resolver.cpp:1068-1093 | no step undoes a deadlock |
| Protocol.CallbackCancelExactly | src/setka/dns_resolver.cpp:1077-1090 | a cancel called by a callback deadlocks at its removal iff it finds nothing to remove |
| Protocol.NoReentryNoDeadlock | src/setka/dns_resolver.cpp:266-276 | no run deadlocks if callbacks keep out of the library |
| Protocol.ExitedStays | src/setka/dns_resolver.cpp:890-895 | a thread that left calls no one back again |
| Protocol.StrandsExactly | src/setka/dns_resolver.cpp:1079-1082 | which steps leave an active request with a thread that is gone |
| Protocol.StrandedByRace | src/setka/dns_resolver.cpp:945-998 | a run through the gap between the two locks of resolve |
| Protocol.StrandedByCancel | src/setka/dns_resolver.cpp:1079-1082 | a run in which an emptying cancel tells the thread to quit and a later resolve still uses it |
| AddressText.LeadingDigit | src/setka/address.cpp:208-217 | a digit on the left adds its value times the power of its place |
| AddressText.TenToThe | src/setka/address.cpp:209-212 | the inner loop computes the power without 32-bit overflow |
| AddressText.Backwards | src/setka/address.cpp:206-217 | the backward loop yields the left-to-right value without 32-bit overflow |
| AddressText.ReadPort | src/setka/address.cpp:184-224 | the port step for every text and position |
| AddressText.PortExactly | src/setka/address.cpp:194-224 | the port is the value of the maximal digit run, accepted iff it has at most five digits and is at most 65535; what follows is ignored |
| AddressText.PortAcceptedExactly | src/setka/address.cpp:184-224 | the text after the host is accepted as port p iff it is empty and p is 0, or a colon, at most five digits of value p, and no further digit |
| AddressText.PortReadsBack | src/setka/address.cpp:194-224 | every printed port reads back |
| AddressText.LeadingZerosExactly | src/setka/address.cpp:196-224 | zeros before a number count as digits: accepted iff five digits at most stand there and the number is a port |
| AddressText.IsIpV4String | src/setka/address.cpp:19-29 | true iff a dot comes before any colon |
| AddressText.CopyBracketed | src/setka/address.cpp:136-150 | the bracketed host is copied whole, or refused iff unterminated or over 45 characters; the buffer is never overrun |
| AddressText.CopyDotted | src/setka/address.cpp:159-171 | likewise up to the colon, over 15 characters |
| AddressText.ReadAddress | src/setka/address.cpp:130-225 | which host text and which port a string denotes, for any host readers |
| AddressText.FormsExactly | src/setka/address.cpp:130-180 | for every text in brackets or dotted: its host, refused over 45 or 15 characters, and what follows; an open bracket and the empty text are refused |
| AddressText.StrayTextRefused | src/setka/address.cpp:184-191 | text after the host that does not start with a colon is refused |
| AddressText.PrintV4 | src/setka/address.cpp:229-237 | the loop over bytes prints their dotted list |
| AddressText.PrintV6 | src/setka/address.cpp:238-247 | the loop over groups prints their colon list |
| AddressText.ToString | src/setka/address.cpp:227-250 | to_string is that text |
| AddressText.DigitsAre | src/setka/address.cpp:239-242 | hexadecimal digits are lower-case |
| AddressText.LiteralText | src/setka/address.cpp:229-237 | 127.0.0.1, character by character |
| AddressText.TextReadsBack | src/setka/address.cpp:227-249 | dotted text reads back to the address, eight groups to the quads in printed order |
| AddressText.DocumentedOrderExactly | src/setka/address.hpp:24-29 | read in the documented order an IPv6 text is its address iff the quads are a palindrome |
| AddressText.ToStringInjective | src/setka/address.cpp:227-249 | no two addresses print alike |
| AddressText.KindShows | src/setka/address.cpp:18-38 | a printed text is recognised as IPv4 iff the address is |
| AddressText.PortlessExactly | src/setka/address.cpp:182-192 | every text without a port, or with a colon and no digit, is accepted, with port 0, iff its host part is |
| AddressText.V4ReadsBack | src/setka/address.cpp:155-224 | every IPv4 address and port, printed, read back; without a port they read back with port 0 |
| AddressText.V6ReadsBack | src/setka/address.cpp:135-180 | every IPv6 address and port, printed, read back with the quads reversed |

## Left out

- Sockets, the wait set, the message queue's implementation and thread start and join: a socket is what one turn finds on
  it, the queue is a FIFO of messages.
- `inet_pton` and the IPv6 grammar behind it: `AddressText` takes any two host readers, and only assumes of them the forms
  `to_string` prints.
- `InitDNS`, the Windows branches and `clean_up`; the system's DNS server is a constant of the thread object.
- A socket that fails to open (dns_resolver.cpp:680-690), which calls back without holding the thread's mutex.
- The rollback of `resolve` after the request has moved into the main map (dns_resolver.cpp:1059-1063).
- Engine.LookupThread.Resolve: is one atomic step, although the source frees the thread's mutex between lines 953 and 998;
  what that gap allows is the subject of `Protocol.StrandsExactly`.
- Engine.LookupThread.Run: users act during the wait, then the messages run; users acting between two messages are not
  modelled, nor is what follows the failing assertions at lines 736 and 857 when assertions are off.
- The port of a server address: the model's servers are hosts.
- Engine.LookupThread.CallCallback: completedMutex and the exceptions a callback may throw are not in the class; the locks
  are in `Protocol`, and exceptions are ignored by the source.
- Protocol.DeadlockExactly: covers one lookup thread; the hand-over to a new thread object and the exit on a socket error, which
  takes the same locks, are not steps of `Protocol`.
- Liveness: that every request ends needs a running thread, which a cancel that empties the map can take away
  (`Protocol.StrandedByCancel`).
- Iterators are modelled by the contents of the node they point to, multimaps by ordered lists of nodes.
- The byte the query buffer holds at its last place for a name that is empty or ends in a dot: the source sends one
  uninitialised byte there when assertions are off.
- Compression pointers inside a decoded name are not followed, by the source either; labels over 63 bytes are written, by
  the source too.
- `tcp_socket`, `udp_socket`, `tcp_server_socket`, `init_guard`: thin wrappers over system calls.
