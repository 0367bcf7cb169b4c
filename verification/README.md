# A verified model of KoiSyn

KoiSyn connects peers directly: two sessions exchange UDP ports through three small packets, then open QUIC connections in
both directions and send every message over both. This project models that protocol, the numeric code the synchronised
game state rests on (two generators and a checksum), and the algorithms with bodies in the MsQuic headers the
repository carries. It proves what the code, its comments and its documentation promise, and where the code does less,
exactly when.

Code that updates state is a class or a method with loops, proved against a function on values; runs, interleavings and
round trips are then proved about those functions. Words are bounded integers, and every wrap-around or truncation is
written out.

| file | contents |
|---|---|
| `Session.dfy`, `KoiSession.dfy` | the connection table and its handlers, as functions on values and as objects |
| `SlotTable.dfy` | what the handlers keep over every run of one session; retries |
| `ConnectionCount.dfy` | the reference count against the connections that are up, with events in any order |
| `PortAgreement.dfy` | the port exchange among any number of sessions over an unreliable network, resets included |
| `PortExchanges.dfy` | exchanges that complete, and those that a reset or a failed connection spoils |
| `PortReconnection.dfy` | one attempt after another between the same two sessions |
| `Receiver.dfy`, `StreamChannel.dfy`, `RedundantStreams.dfy` | framing, the receive handler, and runs over two redundant streams |
| `SendBuffer.dfy` | the shared send buffer and its racing completions |
| `Lcg32.dfy`, `Lcg64.dfy` | the generators and their periods |
| `Mixer.dfy`, `Checksum.dfy`, `UnorderedChecksum.dfy`, `ChunkView.dfy` | the checksum and the chunking view |
| `RangeSearch.dfy`, `PacketNumber.dfy`, `VarInt.dfy`, `IntrusiveList.dfy`, `TimeConversion.dfy`, `FlowBlocked.dfy` | the MsQuic headers |
| `Words.dfy`, `Modular.dfy`, `Bits.dfy`, `Bytes.dfy` | words, remainders and powers, bits, byte orders |

Things found on the way:

- The loop that hands out received frames (`KoiSyn/inc/koisyn/koisession.h:1027-1041`) does not leave on a partial frame of
  four bytes or more (`Receiver.LiteralLoopHangsOnPartialFrame`, `RedundantStreams.PartialArrivalHangs`). The model stops
  there. `Receiver.LiteralLoopEndsExactlyWhen` says when the loop as written ends, and
  `RedundantStreams.WrittenHandlerReturnsExactlyWhen` which arrivals its handler survives; where it ends, it agrees.
- A send that only one of the two streams accepts is reported as sent, but its buffer is never freed
  (`SendBuffer.FreedExactlyWhenStreamsAgree`). If that stream's partner accepts a later message, the receiver can lose and
  repeat messages; every interleaving delivers a prefix of what was sent exactly if each stream accepted a prefix of it
  (`RedundantStreams.PrefixDeliveredExactlyWhen`).
- The reference count is the number of connections that are up less the shutdowns of connections that never came up, modulo
  2^32, so one of the latter kind keeps an idle entry from being freed (`ConnectionCount.UnreportedShutdownWraps`).
- A failed bind on a new peer's first packet leaves ports without a peer in the entry, for good
  (`SlotTable.PortsStrayExactlyWhen`, `SlotTable.FailedBindLosesTheEntry`). So an entry without a peer is unusable exactly if
  it holds such ports or its count is off (`ConnectionCount.BlockedExactlyWhen`); the latter happens to a handshake that
  times out after opening its connection (`ConnectionCount.GivingUpBlocksTheEntry`).
- The handshake never compares the ports a packet echoes with its own. Two sessions are sure to agree on ports exactly as
  long as neither has reset its entry for the other (`PortExchanges.AgreementHoldsExactlyWhenIntact`); after a reset, a
  packet of the earlier attempt can break agreement on either side, whichever the ports. Once neither has an entry for the
  other and no packet between them is left, they agree again (`PortReconnection.EveryAttemptAgrees`). A connection that
  fails before it comes up lets a duplicate packet open another one (`PortExchanges.FailedConnectionOpensAgain`).
- The sized range hash truncates the count to 32 bits: at 2^32 elements and more its last loop would not end
  (`Checksum.WholeWordsCover`).
- A map's checksum does not depend on which value belongs to which key (`UnorderedChecksum.MapChecksumIgnoresPairing`).
- The user-mode copy of the conversion from microseconds to ticks returns times below 2^32 microseconds unchanged, and is
  right exactly for a counter of one megahertz (`TimeConversion.UserModeAgreesExactlyAtAMegahertz`).
- At a tie packet-number decompression goes down, where the sample algorithm of appendix A.3 of RFC 9000 goes up
  (`PacketNumber.AgreesWithRfcExactlyWhen`).

## Model

| member | source | states |
|---|---|---|
| PortAgreement.OpenersHoldReservedPorts | KoiSyn/inc/koisyn/koisession.h:356-540 | In every run among any number of sessions, with loss, duplication, reordering, retries, resets and simultaneous dialling, whoever passes StartClient's guard has saved exactly the ports the peer reserved for it, if neither of the two has reset its entry for the other |
| PortAgreement.AtMostOneOpeningPerPeer | KoiSyn/inc/koisyn/koisession.h:532-547 | In those runs an entry opens at most one client connection, unless it was reset or its connection was shut down before it came up |
| PortExchanges.EveryExchangeCanFinish | KoiSyn/inc/koisyn/koisession.h:259-610 | From every world a run can reach, whatever was lost: while a handshake is in progress, neither side has reset its entry and the peer can answer, a retry and at most three deliveries leave both with a connection and each other's reserved ports |
| PortExchanges.ThreePacketsConnect | KoiSyn/inc/koisyn/koisession.h:356-610 | From every start, as a run of four moves: dialling, request, response and acknowledgement make both sides open and start a connection from their reserved client port to the other's listener, for all ports, each having sent to the other's client port first |
| PortExchanges.AgreementHoldsExactlyWhenIntact | KoiSyn/inc/koisyn/koisession.h:356-540 | For any set of the two sessions' entries for each other: every run in which exactly these are reset leaves one's openings with the ports the other reserved, if and only if the set is empty |
| PortExchanges.StaleResponseBreaksAgreement | KoiSyn/inc/koisyn/koisession.h:400-437 | For any two sessions and any two client ports, a run in which only the peer's entry was reset and a session opens with a port that is no longer reserved |
| PortExchanges.StaleAcknowledgementBreaksAgreement | KoiSyn/inc/koisyn/koisession.h:423-437 | For any two sessions, a run in which only its own entry was reset and a session opens with ports 0 and 0 |
| PortReconnection.EveryAttemptAgrees | KoiSyn/inc/koisyn/koisession.h:356-540 | In every run, from where two sessions have no entries for each other and none of their packets are left, openings between them agree as long as neither resets its entry again, whatever was before |
| PortReconnection.AtMostOneOpeningPerAttempt | KoiSyn/inc/koisyn/koisession.h:532-547 | And each opens at most one connection in that attempt, unless it fails before it comes up |
| PortReconnection.ReconnectionHappens | KoiSyn/inc/koisyn/koisession.h:356-789 | From every start two sessions can connect, disconnect normally, and connect again with any ports |
| PortExchanges.FailedConnectionOpensAgain | KoiSyn/inc/koisyn/koisession.h:532-547 | For any two sessions, a run without resets in which an entry whose connection failed opens a second one |
| PortAgreement.ChangeKeepsInv | KoiSyn/inc/koisyn/koisession.h:356-540 | Any handler step that develops or resets one entry as allowed keeps the agreement invariant of the whole network |
| PortAgreement.Receive1stIsGood | KoiSyn/inc/koisyn/koisession.h:440-489 | Handling a request keeps reserved ports, saves the sender's true ports, and answers with both pairs exactly if there is or can be a reserved port |
| PortAgreement.Receive2ndIsGood | KoiSyn/inc/koisyn/koisession.h:491-520 | Handling a response saves the sender's true ports, acknowledges only to a peer that knows ours, and opens with the right ports, or resets the entry if the user declines |
| PortAgreement.StartClientIsGood | KoiSyn/inc/koisyn/koisession.h:522-610 | An acknowledgement only reaches an entry that already knows the sender's ports |
| PortAgreement.RecheckIsGood | KoiSyn/inc/koisyn/koisession.h:275-318 | Whatever a check sends are true ports, as a request or as a response, to a peer whose handshake goes on |
| Session.PortsRoundTrip | KoiSyn/inc/koisyn/koisession.h:224-257 | The eight bytes of a port packet decode to the four ports that were encoded |
| Session.PortsOnTheWire | KoiSyn/inc/koisyn/koisession.h:224-239 | A port packet is the four ports in order, each with its high byte first |
| Session.FindMatchingEntryIsLookup | KoiSyn/inc/koisyn/koisession.h:324-349 | The scan returns the first entry of the address, otherwise the first empty one, otherwise -1 |
| SlotTable.RunKeepsInv | KoiSyn/inc/koisyn/koisession.h:179-221 | In every table of every run, resets included, no two entries hold the same remote sentinel, and a handshake in progress has a peer and a non-zero local server port |
| SlotTable.RunKeepsLocalPorts | KoiSyn/inc/koisyn/koisession.h:203-213 | If every bound socket can tell its port, both local ports of every entry with a peer, and so of every handshake in progress, are non-zero |
| SlotTable.NewPeersTakeEmptyEntries | KoiSyn/inc/koisyn/koisession.h:324-349 | A peer gets an entry only where ports and reference count were zero, and only if it had none |
| SlotTable.ConnectReserves | KoiSyn/inc/koisyn/koisession.h:189-221 | Dialling: nothing for a peer with an entry, without an empty entry or without a socket; otherwise the first empty entry gets the peer, the reserved ports, the time and the socket, and one request goes out |
| SlotTable.FirstRequestReserves | KoiSyn/inc/koisyn/koisession.h:440-489 | A new peer's request does the same with its ports saved, sends to its client port and answers with both pairs |
| SlotTable.FirstRequestWithoutPort | KoiSyn/inc/koisyn/koisession.h:451-472 | Without a socket it only saves the ports and sends to the client port; without an empty entry it does nothing |
| SlotTable.RequestIsAnswered | KoiSyn/inc/koisyn/koisession.h:440-489 | A request within a handshake saves the ports, sends to the client port and answers with both pairs, and changes nothing else |
| SlotTable.ResponseOpens | KoiSyn/inc/koisyn/koisession.h:491-520 | A response within a handshake saves the ports, sends to the client port, acknowledges with the sender's ports only, and opens: once, if a handle is to be had, either starting the connection and handing over the socket or, declined, clearing the entry |
| SlotTable.AcknowledgementOpens | KoiSyn/inc/koisyn/koisession.h:522-610 | An acknowledgement within a handshake only opens |
| SlotTable.OtherPacketsAreIgnored | KoiSyn/inc/koisyn/koisession.h:356-437 | Packets of another length or without ports, from strangers unless requests, or without a handshake in progress change and send nothing |
| SlotTable.SocketHeldUntilStart | KoiSyn/inc/koisyn/koisession.h:213-214 | In every run an entry in its handshake holds its client port's socket exactly until a connection to the peer is started |
| SlotTable.ConnectedEntryIsSettled | KoiSyn/inc/koisyn/koisession.h:378-437 | Once connected, no packet or dial of that peer changes the table and the retry check passes the entry by |
| SlotTable.PortsStrayExactlyWhen | KoiSyn/inc/koisyn/koisession.h:440-489 | A run leaves an entry with ports but no peer exactly if binding fails for some new peer's request |
| SlotTable.FailedBindLosesTheEntry | KoiSyn/inc/koisyn/koisession.h:451-472 | That entry had been empty, and whatever packets, dials and checks follow it stays as it is, is not empty and is found for no address |
| SlotTable.RetriesAreBounded | KoiSyn/inc/koisyn/koisession.h:259-318 | In every run, with an entry's checks four seconds apart, a handshake is retried at most 15 times, and at most 3 times if the peer's ports are known from the start |
| SlotTable.RetryBoundsAreReached | KoiSyn/inc/koisyn/koisession.h:275-318 | Both bounds are reached, in runs that begin with dialling any peer and with any peer's request |
| SlotTable.HandshakeEndsExactlyWhen | KoiSyn/inc/koisyn/koisession.h:259-789 | A handshake goes on, for the same peer and without forgetting its ports, until exactly its connection comes up, the user declines or drops it, the last connection shuts down, or a check finds it past 59.998 s (11.998 s with the peer's ports known) |
| SlotTable.TimedOutCheckClears | KoiSyn/inc/koisyn/koisession.h:279-308 | Such a check clears the entry, peer, ports, socket, connection and channels, but keeps the count; it sends nothing, and calls the user exactly if the ports were known and at most 59.998 s have passed |
| SlotTable.TimedOutPeerCanBeDialled | KoiSyn/inc/koisyn/koisession.h:285-308 | With a count of 0 the entry is then empty and the peer can be dialled again |
| SlotTable.OtherChecksOnlyRepeat | KoiSyn/inc/koisyn/koisession.h:275-318 | Any other check changes nothing and, from 3.998 s on, repeats the entry's ports to its peer |
| SlotTable.ConnectedCounts | KoiSyn/inc/koisyn/koisession.h:725-733 | A connection that comes up ends the handshake and adds one to the count, modulo 2^32 |
| SlotTable.DropClears | KoiSyn/inc/koisyn/koichan.h:140-145 | The user dropping the channel clears the entry but not its count |
| SlotTable.ShutdownCountsDown | KoiSyn/inc/koisyn/koisession.h:747-789 | A shutdown takes one from the count, modulo 2^32, and forgets our handle if it was ours; at 0 it clears the entry and calls the user |
| SlotTable.NoHandshakeOutlivesTheStops | KoiSyn/inc/koisyn/koisession.h:259-318 | In every run with checks at most a delay apart, no handshake lasts longer than 59.998 s and the delay, nor longer than the delay past both 11.998 s and the time the peer's ports became known |
| ConnectionCount.CountIsLiveMinusUnreported | KoiSyn/inc/koisyn/koisession.h:725-789 | In every run, with connection events in any order, each reference count is the number of connections up less the shutdowns of connections that were not, modulo 2^32 |
| ConnectionCount.CountIsLiveConnections | KoiSyn/inc/koisyn/koisession.h:725-789 | So in every run in which an entry's handles report CONNECTED before SHUTDOWN_COMPLETE, its reference count is the number of its connections up, while that is below 2^32; in general exactly if the other shutdowns are a multiple of 2^32 |
| ConnectionCount.LastShutdownFreesTheEntry | KoiSyn/inc/koisyn/koisession.h:747-789 | With that discipline a shutdown calls OnDisconnect exactly when it was the last connection, and the entry is then as new |
| ConnectionCount.UnreportedShutdownWraps | KoiSyn/inc/koisyn/koisession.h:774-783 | In any run a shutdown disconnects and frees the entry exactly if connections up and unreported shutdowns are equally many modulo 2^32; otherwise an entry with none up keeps a wrapped count and stays taken |
| ConnectionCount.OthersKeepCounts | KoiSyn/inc/koisyn/koichan.h:99-113 | No other handler, and no reset, changes a reference count |
| ConnectionCount.BlockedExactlyWhen | KoiSyn/inc/koisyn/koisession.h:324-349 | In every run an entry without a peer is not empty exactly if it holds stray ports or its connections up and unreported shutdowns differ modulo 2^32 |
| ConnectionCount.NoneBlockedExactlyWhen | KoiSyn/inc/koisyn/koisession.h:440-789 | A run never has such an entry exactly if no bind fails for a new peer's request and entries without a peer are always balanced |
| ConnectionCount.GivingUpBlocksTheEntry | KoiSyn/inc/koisyn/koisession.h:285-291 | For any peer, a run without failed binds that does: we open, the handshake times out, and the dropped connection shuts down |
| KoiSession.KoiSession.FindMatchingEntry | KoiSyn/inc/koisyn/koisession.h:324-349 | The loop over the contexts computes the lookup |
| KoiSession.KoiSession.ConnectTo | KoiSyn/inc/koisyn/koisession.h:189-221 | Updating the contexts in place takes the table to the specified one with the specified packets |
| KoiSession.KoiSession.ConsumeRawUdpData | KoiSyn/inc/koisyn/koisession.h:356-438 | The same for an arriving packet, with its three handlers |
| KoiSession.KoiSession.CheckHalfConnection | KoiSyn/inc/koisyn/koisession.h:259-318 | A round of the daemon checks every entry once, as if alone, in order, each at its own reading of the clock |
| KoiSession.KoiSession.HandleShutdownComplete | KoiSyn/inc/koisyn/koisession.h:747-789 | The handler in place does what the accounting is about |
| RedundantStreams.DeliveryIsExact | KoiSyn/inc/koisyn/koisession.h:991-1044 | With the drain loop that stops at a partial frame, for every fragmentation and interleaving of two streams, each of which accepted a prefix of the messages sent, the callbacks got the first k messages, once each and in order, k counting the frames complete within the furthest byte either stream delivered; the rest is kept |
| RedundantStreams.GapIsUnreachable | KoiSyn/inc/koisyn/koisession.h:1006-1012 | In those runs the branch that aborts on a gap is never taken |
| RedundantStreams.OneStreamSuffices | KoiSyn/inc/koisyn/koisession.h:963-1045 | Once either stream has delivered all the bytes of the messages sent, every message has been delivered |
| RedundantStreams.WrittenHandlerReturnsExactlyWhen | KoiSyn/inc/koisyn/koisession.h:963-1045 | The handler as written returns throughout such a run exactly if every buffer that brings new bytes ends within three bytes after a frame, and then it has done the same |
| RedundantStreams.PartialArrivalHangs | KoiSyn/inc/koisyn/koisession.h:1026-1041 | A first arrival that stops within any payload makes the handler as written hang |
| RedundantStreams.PrefixDeliveredExactlyWhen | KoiSyn/inc/koisyn/koichan.h:202-216 | For any sends, accepted by either stream or both, every interleaving has delivered a prefix of the messages sent if and only if each stream accepted a prefix of them |
| RedundantStreams.DivergedStreamsGoWrong | KoiSyn/inc/koisyn/koichan.h:202-216 | If the second stream misses the first of any two messages of one length, a run loses it and delivers the other one twice |
| Receiver.LiteralLoopEndsExactlyWhen | KoiSyn/inc/koisyn/koisession.h:1026-1041 | On any bytes, the loop as written ends exactly when fewer than four are left over (or a length field wraps), and then equals the loop that stops at a partial frame |
| Receiver.LiteralLoopEndsNearFrames | KoiSyn/inc/koisyn/koisession.h:1026-1041 | On what has arrived of framed messages, it ends exactly if that stops within three bytes after a frame |
| Receiver.LiteralLoopHangsOnPartialFrame | KoiSyn/inc/koisyn/koisession.h:1026-1041 | It never ends on a frame whose length field is there and whose payload is not all there |
| Receiver.LiteralConsumeReturnsExactlyWhen | KoiSyn/inc/koisyn/koisession.h:989-1044 | The loop over the buffers around it returns exactly if every buffer that brings new bytes ends within three bytes after a frame |
| Receiver.DrainConcat | KoiSyn/inc/koisyn/koisession.h:1022-1041 | Draining in two parts, with the rest kept in between, is draining the whole |
| Receiver.DrainFrames | KoiSyn/inc/koisyn/koichan.h:167-217 | Draining a prefix of framed messages yields exactly those whose frames are complete and keeps the start of the next |
| Receiver.ConsumeFollows | KoiSyn/inc/koisyn/koisession.h:989-1044 | An event that starts at or before the next wanted byte moves NextRecvByte to the maximum and hands out exactly the new frames |
| Receiver.FrameLayout | KoiSyn/inc/koisyn/koichan.h:180-183 | A frame is the length in four bytes, most significant first, and the payload |
| Receiver.AbortsExactlyAtAGap | KoiSyn/inc/koisyn/koisession.h:1006-1012 | The handler aborts exactly on an event that begins after the next wanted byte, forgetting everything and calling nobody; within an event there is never a gap |
| Receiver.OverrunsExactlyWhenLengthWraps | KoiSyn/inc/koisyn/koisession.h:1031-1032 | The test for a complete frame passes on a shorter buffer exactly for lengths whose sum with 4 wraps |
| StreamChannel.StreamChannel.DrainBuffer | KoiSyn/inc/koisyn/koisession.h:1025-1041 | The drain loop in place leaves the specified rest and calls back with the specified messages |
| StreamChannel.StreamChannel.HandleReceive | KoiSyn/inc/koisyn/koisession.h:963-1045 | The handler in place, with its loop over buffers, produces the specified channel, callbacks and status |
| SendBuffer.NeverFreedEarlyOrTwice | KoiSyn/inc/koisyn/koichan.h:185-216 | Under every interleaving of sends and completions the buffer is freed at most once, with no send to come or outstanding, and not touched afterwards |
| SendBuffer.FreedExactlyWhenStreamsAgree | KoiSyn/inc/koisyn/koichan.h:196-216 | After all completions it has been freed exactly if all attempted sends were accepted or none was |
| SendBuffer.EveryRunCanFinish | KoiSyn/inc/koisyn/koichan.h:185-216 | From every reachable state the sender and the completions can finish |
| SendBuffer.CountersWrap | KoiSyn/inc/koisyn/koichan.h:122-122 | The reference count goes up and down modulo 2^32 |
| SendBuffer.CountingEachBeforeItsSendIsUnsafe | KoiSyn/inc/koisyn/koichan.h:190-200 | A sender that counts each stream only before its own send has a run that frees the buffer with a send to come exactly if there is more than one stream |
| SendBuffer.AcceptedDataIsFramed | KoiSyn/inc/koisyn/koichan.h:275-299 | What the checks let through is sent as one well-formed frame despite the 16-bit truncation |
| SendBuffer.ReliablePacketSend | KoiSyn/inc/koisyn/koichan.h:167-217 | Refuses exactly payloads above 65512 bytes, channels from 4 on, and without memory; otherwise the buffer holds the payload's frame, and the two loops, with completions in between, execute a run of the protocol and report whether any stream accepted |
| Lcg32.PeriodIsExact | KoiSyn/inc/koisyn/rpng.h:11-39 | Period exactly 2147483646 from every seed whose low 31 bits are neither 0 nor 2^31 - 1, and 1 from those |
| Lcg32.NextIsMultiplication | KoiSyn/inc/koisyn/rpng.h:22-39 | The shift and fold is multiplication by 48271 modulo 2^31 - 1 without overflow; the sign bit is kept |
| Lcg32.OrderIsExact | KoiSyn/inc/koisyn/rpng.h:11-15 | The powers of 48271 are 1 modulo 2^31 - 1 exactly at the multiples of 2^31 - 2 |
| Lcg32.CycleIsFull | KoiSyn/inc/koisyn/rpng.h:11-15 | One cycle per sign reaches every non-degenerate seed |
| Lcg64.PeriodIsExact | KoiSyn/inc/koisyn/rpng.h:53-66 | Period exactly 2^64 from every seed |
| Lcg64.IterateIsAffine | KoiSyn/inc/koisyn/rpng.h:63-66 | k steps are one affine map whose increment is a geometric sum |
| Lcg64.GeometricSumDivisibility | KoiSyn/inc/koisyn/rpng.h:53-56 | The partial sums of the multiplier's powers are divisible by exactly the powers of two that divide their length |
| Lcg64.CycleIsFull | KoiSyn/inc/koisyn/rpng.h:53-56 | The cycle reaches every 64-bit seed from every other |
| Bits.XorBit | KoiSyn/inc/koisyn/checksum.h:58-76 | A bit of the exclusive or is set exactly if it is set in one of the two words |
| Bits.OrBit | KoiSyn/inc/koisyn/checksum.h:265-270 | A bit of the inclusive or is set exactly if it is set in either |
| Bits.ShiftRightBit | KoiSyn/inc/koisyn/checksum.h:58-76 | Shifting right by k moves bit i + k to bit i |
| Mixer.Hash32IsBijective | KoiSyn/inc/koisyn/checksum.h:58-64 | Hash32 is a bijection, with its inverse |
| Mixer.Hash64IsBijective | KoiSyn/inc/koisyn/checksum.h:70-76 | Hash64 is a bijection, with its inverse |
| Mixer.Hash64InBits | KoiSyn/inc/koisyn/checksum.h:70-76 | Bit by bit, Hash64 is the only function that folds over 32 bits and multiplies, twice, and folds over 28 bits |
| Mixer.Hash32InBits | KoiSyn/inc/koisyn/checksum.h:58-64 | And Hash32 the only one with folds of 16, 15 and 15 bits and its two multipliers |
| Mixer.MixIdentifiesSums | KoiSyn/inc/koisyn/checksum.h:135-140 | Mixing identifies exactly the arguments with the same wrapped sum |
| Mixer.MixIsInjective | KoiSyn/inc/koisyn/checksum.h:135-140 | With one argument fixed, mixing is injective in the other |
| Mixer.MixIsHashOfSum | KoiSyn/inc/koisyn/checksum.h:135-140 | Unhashed, a mix is the wrapped sum of the two values and the constant |
| Checksum.HashIntRange | KoiSyn/inc/koisyn/checksum.h:247-275 | The hash over the chunking view computes the range hash, for widths 1, 2, 4 and 8 |
| Checksum.HashIntSizedRange | KoiSyn/inc/koisyn/checksum.h:281-332 | So does the element-wise sized hash, below 2^32 elements |
| Checksum.HashIntContiguousRange | KoiSyn/inc/koisyn/checksum.h:296-332 | So does the one that copies eight bytes of little-endian memory at a time |
| Checksum.WholeWordsCover | KoiSyn/inc/koisyn/checksum.h:287-331 | The truncated count leaves less than a word for the last loop exactly below 2^32 elements |
| Checksum.WordInMemory | KoiSyn/inc/koisyn/checksum.h:296-309 | Eight bytes of the elements' memory are the packed elements |
| Checksum.MergePacks | KoiSyn/inc/koisyn/checksum.h:261-271 | Or-ing a shifted element into the word appends it |
| Checksum.ToU64IsInjective | KoiSyn/inc/koisyn/checksum.h:99-121 | Conversion without sign extension keeps the values of a type apart |
| Checksum.ToU64IsTwosComplement | KoiSyn/inc/koisyn/checksum.h:99-121 | Conversion keeps non-negative values and adds 2^8, 2^16, 2^32 or 2^64 to negative ones |
| Checksum.MemoryIsTwosComplement | KoiSyn/inc/koisyn/checksum.h:296-309 | Byte j of element i in memory is that digit of its two's-complement value, lowest first |
| Checksum.RangeHashIsRunningSum | KoiSyn/inc/koisyn/checksum.h:247-275 | The range hash is the hash of the constant, the last running sum and the count, each running sum being the hash of the constant, the one before and the chunk's word, from 0 on |
| Checksum.OneChunkDiffers | KoiSyn/inc/koisyn/checksum.h:247-332 | Ranges of equal length that differ in exactly one eight-byte chunk have different checksums |
| Checksum.CountDiffers | KoiSyn/inc/koisyn/checksum.h:274-274 | Ranges with the same packed words and different lengths have different checksums |
| Checksum.TwoWordsCanCollide | KoiSyn/inc/koisyn/checksum.h:135-140 | Two differing words can always be made to collide |
| UnorderedChecksum.ChecksumOfSet | KoiSyn/inc/koisyn/checksum.h:379-390 | The loop computes the wrapped sum of hashes, mixed with the hash of the size |
| UnorderedChecksum.SetChecksumIgnoresOrder | KoiSyn/inc/koisyn/checksum.h:377-390 | A set's checksum does not depend on the iteration order |
| UnorderedChecksum.SetsCollideExactlyWhen | KoiSyn/inc/koisyn/checksum.h:377-390 | Sets of one size have equal checksums exactly if the sums of their elements' hashes agree modulo 2^64; sets of different sizes with the same sum never do |
| UnorderedChecksum.SetChecksumValue | KoiSyn/inc/koisyn/checksum.h:379-390 | Unhashed, a set's checksum is the wrapped sum of the constant, the hash of the size and the hashes of the elements |
| UnorderedChecksum.OneElementReplaced | KoiSyn/inc/koisyn/checksum.h:377-390 | Replacing one element by a different one changes the checksum |
| UnorderedChecksum.ChecksumOfMap | KoiSyn/inc/koisyn/checksum.h:394-407 | The loop sums the hashes of keys and values alike |
| UnorderedChecksum.MapChecksumIgnoresPairing | KoiSyn/inc/koisyn/checksum.h:392-407 | A map's checksum depends on neither the order nor on which value belongs to which key |
| UnorderedChecksum.MapsCollideExactlyWhen | KoiSyn/inc/koisyn/checksum.h:392-407 | Maps of one size have equal checksums exactly if the sums of the hashes of their keys and values agree modulo 2^64; maps of different sizes with the same sum never do |
| UnorderedChecksum.MapChecksumValue | KoiSyn/inc/koisyn/checksum.h:394-407 | Unhashed, a map's checksum is the wrapped sum of the constant, the hash of the size and the hashes of keys and values |
| UnorderedChecksum.OneValueReplaced | KoiSyn/inc/koisyn/checksum.h:392-407 | Giving one key another value changes the checksum |
| ChunkView.ChunksPartition | KoiSyn/inc/koisyn/std/std_ranges.h:176-184 | The blocks are the elements in order, each once, all of the given size but the last, which may be shorter |
| ChunkView.ChunkAt | KoiSyn/inc/koisyn/std/std_ranges.h:176-184 | Block i is the elements from i times the size on |
| ChunkView.Traverse | KoiSyn/inc/koisyn/std/std_ranges.h:222-333 | Nested iteration visits the blocks in order, and leaving a block at any point changes nothing for the next ones |
| ChunkView.View.AdvanceInner | KoiSyn/inc/koisyn/std/std_ranges.h:222-232 | The inner step moves the shared cursor by one and keeps it consistent |
| ChunkView.View.AdvanceOuter | KoiSyn/inc/koisyn/std/std_ranges.h:319-323 | From anywhere in a chunk the outer step lands on the next chunk boundary |
| ChunkView.View.OuterDistanceCountsChunks | KoiSyn/inc/koisyn/std/std_ranges.h:274-281 | The outer distance is the number of chunks from the current one on, however much of it is consumed |
| ChunkView.View.Size | KoiSyn/inc/koisyn/std/std_ranges.h:363-373 | The size is the number of blocks |
| RangeSearch.CompareMeans | KoiSyn/inc/koisyn/platform/core/range.h:121-134 | The comparison is 0 exactly if key and interval have a value in common, -1 exactly if the key is below it and 1 exactly if above |
| RangeSearch.BinarySearch | KoiSyn/inc/koisyn/platform/core/range.h:157-200 | In bounds and terminating despite Hi wrapping; finds an interval with a value of the key, or returns -at - 1 for the place at with all intervals before it below the key and all others above |
| RangeSearch.LinearSearch | KoiSyn/inc/koisyn/platform/core/range.h:209-227 | Finds the largest such interval or returns the same place |
| RangeSearch.AnswersFindValues | KoiSyn/inc/koisyn/platform/core/range.h:137-227 | A result is at least 0 exactly if a value of the key lies in some interval |
| RangeSearch.AnswersAgree | KoiSyn/inc/koisyn/platform/core/range.h:137-227 | Both find something exactly when an interval overlaps the key, and otherwise return the same place |
| RangeSearch.InsertionKeepsSorted | KoiSyn/inc/koisyn/platform/core/range.h:137-147 | Inserting there keeps the range sorted and disjoint |
| RangeSearch.EncodingRoundTrip | KoiSyn/inc/koisyn/platform/core/range.h:144-147 | Find and insert indices convert into each other and are told apart by their sign |
| PacketNumber.Encode | KoiSyn/inc/koisyn/platform/core/packet.h:333-344 | Writes the low bytes, most significant first, and nothing else |
| PacketNumber.Decode | KoiSyn/inc/koisyn/platform/core/packet.h:349-360 | Replaces the low bytes of the number in place and keeps the high ones |
| PacketNumber.DecompressIsClosest | KoiSyn/inc/koisyn/platform/core/packet.h:362-413 | Returns the closest non-negative number with the given low bytes, ties going down |
| PacketNumber.DecompressRecovers | KoiSyn/inc/koisyn/platform/core/packet.h:371-413 | Recovers every packet number in the half-open window around the expected one |
| PacketNumber.DecompressWraps | KoiSyn/inc/koisyn/platform/core/packet.h:371-413 | For any 64-bit expected number the result is the closest number with the given low bytes, modulo 2^64 |
| PacketNumber.AgreesWithRfcExactlyWhen | KoiSyn/inc/koisyn/platform/core/packet.h:371-413 | Agrees with appendix A.3 of RFC 9000 except at ties and at the top of the number space |
| PacketNumber.SendAndReceive | KoiSyn/inc/koisyn/platform/core/packet.h:333-413 | Encode, decode and decompress together return the packet number |
| VarInt.Encode | KoiSyn/inc/msquic/quic_var_int.h:53-80 | Writes the encoding of least length at the position and nothing else |
| VarInt.SizeIsLeast | KoiSyn/inc/msquic/quic_var_int.h:41-45 | That length holds the value and no shorter one does |
| VarInt.FormatIsTagAndValue | KoiSyn/inc/msquic/quic_var_int.h:63-78 | In network byte order the two highest bits are 0, 1, 2 or 3 for 1, 2, 4 or 8 bytes and the others the value (section 16 of RFC 9000) |
| VarInt.Decode | KoiSyn/inc/msquic/quic_var_int.h:107-152 | Decodes with 16-bit offsets; a failing call does not move the offset |
| VarInt.DecodeFailsExactlyWhenNoneStarts | KoiSyn/inc/msquic/quic_var_int.h:118-145 | Decoding fails exactly if no value's encoding, in any length that holds it, starts at the offset, and otherwise finds the one that does |
| VarInt.EncodingsArePrefixFree | KoiSyn/inc/msquic/quic_var_int.h:53-152 | An encoding cut short anywhere is never decoded as a value: no encoding is a proper prefix of another |
| VarInt.ListRoundTrip | KoiSyn/inc/msquic/quic_var_int.h:41-152 | Values encoded back to back decode to the same list, ending at the sum of their sizes |
| VarInt.DecodeUndoesEncode | KoiSyn/inc/msquic/quic_var_int.h:82-99 | A value in any length that holds it, two bytes included, is decoded again |
| VarInt.EncodeUndoesDecode | KoiSyn/inc/msquic/quic_var_int.h:107-152 | Decoded bytes are the encoder's own exactly if no shorter length holds the value |
| IntrusiveList.InsertHead | KoiSyn/inc/msquic/quic_platform.h:271-282 | Prepends, keeping the ring |
| IntrusiveList.InsertTail | KoiSyn/inc/msquic/quic_platform.h:286-297 | Appends, keeping the ring |
| IntrusiveList.RemoveHead | KoiSyn/inc/msquic/quic_platform.h:301-311 | Removes and returns the first entry; an empty list returns its head |
| IntrusiveList.EntryRemove | KoiSyn/inc/msquic/quic_platform.h:315-325 | Removes that entry; true exactly if the list is empty now |
| IntrusiveList.MoveItems | KoiSyn/inc/msquic/quic_platform.h:329-374 | The destination gets the source's entries after its own; the source is empty |
| IntrusiveList.ListIsUnique | KoiSyn/inc/msquic/quic_platform.h:235-257 | The links determine the sequence of entries |
| TimeConversion.PlatToUsIsFloor | KoiSyn/inc/msquic/quic_platform_winkernel.h:580-598 | Equals the floor of the wide quotient whenever that fits, without overflow, for frequencies up to 2^32 - 2^20 |
| TimeConversion.UsToPlatIsFloor | KoiSyn/inc/msquic/quic_platform_winkernel.h:603-614 | The same in the other direction |
| TimeConversion.RoundTripLosesAtMostOne | KoiSyn/inc/msquic/quic_platform_winkernel.h:580-614 | From a megahertz up, microseconds to ticks and back never gains and loses at most one |
| TimeConversion.UserModeValue | KoiSyn/inc/msquic/quic_platform_winuser.h:880-891 | The user-mode copy of microseconds to ticks returns the low half as it is, plus the high half's ticks |
| TimeConversion.UserModeReturnsMicroseconds | KoiSyn/inc/msquic/quic_platform_winuser.h:880-891 | So it returns every time below 2^32 unchanged, at any frequency |
| TimeConversion.UserModeAgreesExactlyAtAMegahertz | KoiSyn/inc/msquic/quic_platform_winuser.h:880-891 | The two copies agree on all times if and only if the frequency is one megahertz |
| FlowBlocked.AccountingIsExact | KoiSyn/inc/koisyn/platform/core/connection.h:879-965 | In every run the flags are the reasons that hold, and cumulative plus running time is the total time each has held |
| FlowBlocked.AccountingWraps | KoiSyn/inc/koisyn/platform/core/connection.h:879-965 | The same modulo 2^64 even if the clock goes back |
| FlowBlocked.TrackersAreExact | KoiSyn/inc/koisyn/platform/core/connection.h:879-965 | Field by field, the five trackers account for scheduling, pacing, amplification, congestion and connection flow control |
| FlowBlocked.Connection.AddReason | KoiSyn/inc/koisyn/platform/core/connection.h:879-914 | The update in place, and true exactly if the reason was new |
| FlowBlocked.Connection.RemoveReasons | KoiSyn/inc/koisyn/platform/core/connection.h:918-965 | The update in place, and true exactly if one of the reasons held |

## Left out

- Sockets, MsQuic calls, TLS, threads, the registry and start-up: sends become packets in the network or logged effects, callbacks become events.
- The clock and the results of binding, opening and the user's decision to accept are parameters; the clock is non-zero and the listener is bound.
- Locks: each handler is one atomic step, so skipping a locked entry in the lookup (`koisession.h:330`) and the user calling back into the session from a callback are not modelled.
- PortAgreement.OpenersHoldReservedPorts: covers pairs of sessions neither of which has reset its entry for the other, because the handshake does not tell attempts apart; PortExchanges.AgreementHoldsExactlyWhenIntact shows that it fails otherwise, and PortReconnection.EveryAttemptAgrees covers pairs that start afresh.
- PortExchanges.EveryExchangeCanFinish: says that an exchange can finish, not that the network will deliver.
- RedundantStreams.DeliveryIsExact: is about the loop that stops at a partial frame; RedundantStreams.WrittenHandlerReturnsExactlyWhen says for which arrivals the loop as written does the same. It assumes that each stream accepted a prefix of the messages, which RedundantStreams.PrefixDeliveredExactlyWhen shows to be needed, and offsets that do not restart, as the code's own comment notes for reconnection.
- SendBuffer: the datagram sender has the same two loops; only its completion event differs.
- Checksum.HashIntSizedRange: covers fewer than 2^32 elements; Checksum.WholeWordsCover says why.
- A length field of 2^32 - 4 or more makes the receive loop read past its buffer; the model stops there and reports it.
- The datagram channel's packet numbers and sizes, stream handles and the peer's connection handle are not part of an entry here; nor is the receive handler's check for a channel context the user has dropped.
- Address parsing and comparison: an address is a number, 0 for the zeroed one; the listener's lookup by address and client port is not part of this model.
- The single-linked list, whose push and pop touch one link and keep no invariant between operations beyond the chain itself.
- Checksums of tuples and of ranges of non-integers, which mix the checksums of the members in order: there is no second form for them to agree with.
- Range operations without a body in the repository, such as adding and removing values, are not part of this model.
